# Bing wallpaper sync for XFCE, modelled in Dafny

The repository holds two variants of a script that fetches the daily Bing
image feed, caches each image in a wallpapers directory under
`<date>.jpg`, and points the XFCE backdrop of every connected monitor at
today's image:

- `xfce/.wallpapers/wallBing.py` (module `WallBingXfce`).
  - It skips items without an image URL and captions fresh downloads with the headings of the item's page.
  - It isolates per-item failures.
  - It stops scanning the feed once today's file is in place.
  - It sets both `last-image` and `image-path`, creating them if needed, and only on an XFCE desktop.
  - It exits with status 1 when there is no display, no feed or no file for today.
- `xfce4/wallpapers/wallBing.py` (module `WallBingXfce4`).
  - It downloads every item, with no early exit.
  - Nothing is caught, so the first missing key or failed request ends the run.
  - It sets only `last-image` and has no desktop check.

The wallpapers directory is a class, `FileSystem.Directory`, whose `files` map
(name to bytes) the methods update in place.

Everything outside the script's own decisions enters as a parameter:
- the feed (the item list, or none when fetching or decoding it failed);
- an image fetch, `url -> Option<bytes>`;
- a page fetch, which yields its first `<h1>`/`<h3>` text or `Unreachable`;
- the image annotator, `(bytes, caption) -> Option<bytes>`;
- `xrandr`'s standard output, or none when it cannot be started;
- a predicate saying whether a command can be started;
- today's date and the environment variables.

The methods return the list of outside effects they performed (feed, image and
page requests, annotations). This lets the contracts say, for instance, that a cache hit makes
no request at all.

Each imperative operation is a method proved equal to a pure specification
function: `DownloadWallpaper` against `Download`, `ScanFeed` against `Scan`,
`DownloadFeed` against `DownloadAll`, `RunCommands` against `Attempted`.
The lemmas then state the script's promises about those functions.

The shared modules are:
- `Common`: options, results and error kinds, feed items, effect events.
- `Text`: Python's `splitlines`, `strip`, `split()[0]`, `in` and `lower`.
- `IsoDate`: `date.isoformat()`.
- `Caption`: `get_text_from_url`.
- `CaptionLayout`: the integer geometry of `add_text_to_image`.
- `Monitors`: `get_connected_monitors`, identical in both variants. The model cites `xfce/.wallpapers/wallBing.py:67-73`; the same comprehension is at `xfce4/wallpapers/wallBing.py:27-30`.
- `Xfconf`: property names and `xfconf-query` argument vectors.
- `Shell`: running commands in order until one cannot be started.

## Model

| member | source | states |
|---|---|---|
| Caption.GetTextFromUrl | xfce/.wallpapers/wallBing.py:25-42 | An unreachable page, or one without either heading, gives ""; the text is empty exactly when both headings are blank; no line of the result is blank |
| Caption.CaptionText | xfce/.wallpapers/wallBing.py:35-36 | The caption's lines are the title's non-blank lines followed by the subtitle's, none of them blank; the caption is "" if and only if title and subtitle are both blank (so also when both headings are missing) |
| Caption.CaptionOfTwoLines | xfce/.wallpapers/wallBing.py:35-36 | One-line non-blank title and subtitle give exactly "title\nsubtitle"; a blank subtitle leaves just the title |
| Caption.NonBlankLinesOfJoined | xfce/.wallpapers/wallBing.py:35-36 | Joining two texts with "\n" and splitting keeps each one's non-blank lines in order, including when the first ends in "\r" |
| Caption.NonBlankLinesEmpty | xfce/.wallpapers/wallBing.py:36 | A text has no non-blank line if and only if it is blank |
| Text.Lines | xfce/.wallpapers/wallBing.py:36 | splitlines: no resulting line holds a line break ("\r\n" counts as one break) |
| Text.LinesOfJoin | xfce/.wallpapers/wallBing.py:36 | splitlines undoes "\n".join for non-empty lines without breaks |
| Text.Lower | xfce/.wallpapers/wallBing.py:77 | Same length; each upper-case ASCII letter becomes its lower-case letter, every other character is kept; no upper-case ASCII letter remains |
| Text.LowerIdempotent | xfce/.wallpapers/wallBing.py:77 | Lower-casing is idempotent and leaves no upper-case ASCII letter |
| IsoDate.IsoFormat | xfce/.wallpapers/wallBing.py:174 | isoformat() is ten characters: four, two and two digits separated by '-' |
| IsoDate.IsoRoundTrip | xfce/.wallpapers/wallBing.py:174 | Parsing the ISO text of a valid date gives the date back |
| IsoDate.IsoInjective | xfce/.wallpapers/wallBing.py:174-175 | Two valid dates have the same ISO text (so the same file for today) if and only if they are equal |
| WallBingXfce.UndatedStemIsToday | xfce/.wallpapers/wallBing.py:46 | An undated item falls back on text that means today: it parses back to today's date, and it is the ISO text of no other valid date |
| WallBingXfce.CacheName | xfce/.wallpapers/wallBing.py:46-53 | The date stem followed by ".jpg"; it is today's file name if and only if the item is undated or dated today in ISO form |
| WallBingXfce.TodayName | xfce/.wallpapers/wallBing.py:174-175 | Today's file is the cache name of an undated item |
| WallBingXfce.CacheNameByDate | xfce/.wallpapers/wallBing.py:46-53 | Two items share a cache file if and only if their dates (today's when absent) are equal |
| WallBingXfce.CacheNameIsToday | xfce/.wallpapers/wallBing.py:46 | An item resolves to today's file if and only if it has no date or is dated today |
| WallBingXfce.Download | xfce/.wallpapers/wallBing.py:44-65 | Missing or empty imageUrl: ValueError, directory unchanged, no request, even if cached; cached file: its name, no effect; any error leaves the directory as it was; success returns the name, whose file exists; the first effect is the image request |
| WallBingXfce.DownloadFrame | xfce/.wallpapers/wallBing.py:53-58 | Every existing file is kept byte for byte; the only file that can appear is the item's own |
| WallBingXfce.DownloadWallpaper | xfce/.wallpapers/wallBing.py:44-65 | Updates the directory, returns and performs exactly what Download specifies |
| WallBingXfce.AddTextToImage | xfce/.wallpapers/wallBing.py:99-141 | The file is replaced by the annotated image, or left as it was when annotating raised; no other file changes |
| WallBingXfce.DownloadIdempotent | xfce/.wallpapers/wallBing.py:50-65 | A second call with the same item, under any network and annotator: after a success or a missing imageUrl it returns the same result, changes nothing and makes no request; after a failed request it retries exactly as a first call would |
| WallBingXfce.FreshDownload | xfce/.wallpapers/wallBing.py:54-63 | On a cache miss a failed request raises before any write; otherwise the file holds the response bytes, or the annotated image when a page gives non-empty text and annotation succeeds; annotation happens if and only if the text is non-empty |
| WallBingXfce.Scan | xfce/.wallpapers/wallBing.py:177-185 | The loop of main as a function: when it reports today's file found, that file exists |
| WallBingXfce.ScanGrows | xfce/.wallpapers/wallBing.py:177-185 | The scan keeps every existing file byte for byte, creates only files named after feed items, and reports finding today's file only when it exists |
| WallBingXfce.ScanFeed | xfce/.wallpapers/wallBing.py:177-185 | The loop, which stops after today's file, leaves the directory, the found flag and the effects Scan specifies |
| WallBingXfce.ScanStopsAtToday | xfce/.wallpapers/wallBing.py:179-181 | Once an item resolves to today's file, appending further items changes nothing: they are never processed |
| WallBingXfce.ScanSkipsFailure | xfce/.wallpapers/wallBing.py:182-185 | A failing item leaves the directory unchanged and the scan continues with the next item |
| WallBingXfce.ScanPastFailures | xfce/.wallpapers/wallBing.py:177-185 | Any run of failing items ends with the same directory and found flag as if they were absent |
| WallBingXfce.ScanIdempotent | xfce/.wallpapers/wallBing.py:177-185 | When the network and the annotator answer every request as they did the first time, running the scan again on what it left behind leaves the directory unchanged |
| WallBingXfce.ScanAllCached | xfce/.wallpapers/wallBing.py:177-185 | Under any network and annotator, when the file of every item with an image URL exists, the scan makes no request, annotates nothing and changes nothing |
| WallBingXfce.OlderItemsUntouched | xfce/.wallpapers/wallBing.py:177-181 | For a feed [tomorrow, today, yesterday] whose today item downloads, yesterday's file is never created |
| WallBingXfce.NoTodayItem | xfce/.wallpapers/wallBing.py:174-189 | With no item dated today and no file for today beforehand, the scan leaves no file for today |
| WallBingXfce.DesktopEnvironment | xfce/.wallpapers/wallBing.py:75-77 | "unknown" when the variable is unset; otherwise the variable character by character with each upper-case ASCII letter lower-cased, so no upper-case ASCII letter remains |
| WallBingXfce.XfceGate | xfce/.wallpapers/wallBing.py:75-81 | The desktop passes the "xfce" test if and only if the variable spells xfce in any mix of ASCII upper and lower case |
| WallBingXfce.XfceCommands | xfce/.wallpapers/wallBing.py:83-95 | Two commands per monitor, each of ten arguments ending in --create -t string |
| WallBingXfce.XfceCommandsAt | xfce/.wallpapers/wallBing.py:83-95 | Exactly two commands per monitor; those at 2i and 2i+1 set monitor i's last-image and then image-path to the image path, with --create -t string |
| WallBingXfce.XfceCommandsAppend | xfce/.wallpapers/wallBing.py:83-95 | The commands follow monitor order: those for a + b are a's then b's |
| WallBingXfce.SetWallpaper | xfce/.wallpapers/wallBing.py:79-97 | A desktop other than "xfce" issues nothing; otherwise, if xrandr cannot start, nothing is issued and it raises; otherwise the commands are issued in order up to the first that cannot start, which raises |
| WallBingXfce.Run | xfce/.wallpapers/wallBing.py:144-197 | Status 0 or 1, and 0 only if today's file exists. No display: status 1 and no effect. No feed: status 1 after the feed request only. Otherwise the directory and effects are the scan's. No file for today: status 1, no command. Non-XFCE desktop: status 0. xrandr missing: status 1. Otherwise status 0 if and only if every command starts |
| Monitors.MonitorsOf | xfce/.wallpapers/wallBing.py:73 | At most one name per line, each non-empty and free of whitespace (split()[0] never fails on a line holding " connected") |
| Monitors.ConnectedMonitors | xfce/.wallpapers/wallBing.py:67-73 | Every monitor name of xrandr's output is non-empty and free of whitespace |
| Monitors.MonitorsOfAppend | xfce/.wallpapers/wallBing.py:73 | Line order is kept: the names of a + b are a's names followed by b's |
| Monitors.ConnectedLine | xfce/.wallpapers/wallBing.py:73 | The line "<name> connected..." yields exactly [name] |
| Monitors.DisconnectedLine | xfce/.wallpapers/wallBing.py:73 | The line "<name> disconnected..." with a whitespace-free name yields nothing, when the rest of the line does not itself contain " connected" |
| Monitors.OtherStatusLine | xfce/.wallpapers/wallBing.py:73 | A line "<name> <word>..." with a whitespace-free name and a non-empty, whitespace-free status word not starting with 'c' yields nothing, when the rest of the line does not itself contain " connected" |
| Monitors.ListingOfThree | xfce/.wallpapers/wallBing.py:72-73 | connected/disconnected/connected lines yield the two connected names in order |
| Xfconf.PropertiesPerMonitor | xfce/.wallpapers/wallBing.py:84-85 | Each property path names its monitor: equal paths if and only if equal monitors; last-image and image-path never coincide |
| Shell.RunCommands | xfce4/wallpapers/wallBing.py:39-40 | Issues the commands in order up to and including the first that cannot start; reports whether all started |
| Shell.Attempted | xfce4/wallpapers/wallBing.py:39-40 | The commands the loop attempts: never more than the list holds |
| Shell.AttemptedIsPrefix | xfce4/wallpapers/wallBing.py:39-40 | The issued commands are a prefix of the command list |
| Shell.AttemptedStopsAtFailure | xfce4/wallpapers/wallBing.py:39-40 | All commands are issued when all can start; otherwise the last one issued is the first that could not start, and all before it started |
| Shell.AttemptedAppend | xfce/.wallpapers/wallBing.py:83-95 | Running a + b runs all of a and then b, unless a already stopped |
| CaptionLayout.Place | xfce/.wallpapers/wallBing.py:113-131 | x is width/20 truncated; the text box starts at (x, y) with the measured size; the gap below the text is x//2; the backing box is 10 wider and taller and surrounds the computed text box by 5 on every side |
| CaptionLayout.BackingInsideImage | xfce/.wallpapers/wallBing.py:124-131 | On images at least 200 wide, when the text fits, the backing rectangle stays inside the image |
| WallBingXfce4.FetchInto | xfce4/wallpapers/wallBing.py:19-25 | Existing file: no request, no change; otherwise one request; a failed one raises with the directory unchanged; a successful one adds exactly that file, holding exactly the response bytes |
| WallBingXfce4.DownloadImage | xfce4/wallpapers/wallBing.py:19-25 | Updates the directory and performs exactly what FetchInto specifies |
| WallBingXfce4.ItemName | xfce4/wallpapers/wallBing.py:55 | A dated item's file name is the one the other variant caches it under, whatever today is |
| WallBingXfce4.DownloadAll | xfce4/wallpapers/wallBing.py:54-56 | Existing files are kept byte for byte; the only errors are a missing key or a failed request |
| WallBingXfce4.DownloadFeed | xfce4/wallpapers/wallBing.py:54-56 | The loop leaves the directory, result and effects DownloadAll specifies |
| WallBingXfce4.DownloadAllComplete | xfce4/wallpapers/wallBing.py:54-56 | A completed loop leaves a file for every item: no early exit |
| WallBingXfce4.DownloadAllAppend | xfce4/wallpapers/wallBing.py:54-56 | The loop over a + b is the loop over a followed, if it completed, by the loop over b |
| WallBingXfce4.MissingUrlAborts | xfce4/wallpapers/wallBing.py:55-56 | An item without imageUrl aborts the run with KeyError even when its file exists, before any request |
| WallBingXfce4.AllCachedNoRequests | xfce4/wallpapers/wallBing.py:21-22 | When every item's file exists the loop makes no request and changes nothing |
| WallBingXfce4.DownloadAllIdempotent | xfce4/wallpapers/wallBing.py:54-56 | A second run after a completed one makes no request and changes nothing |
| WallBingXfce4.LastImageCommands | xfce4/wallpapers/wallBing.py:35-38 | One xfconf-query command per monitor, of seven arguments: monitor i's last-image property, then the image path as the last argument, and no --create before it |
| WallBingXfce4.LastImageCommandsAppend | xfce4/wallpapers/wallBing.py:35-38 | The commands follow monitor order: those for a + b are a's then b's |
| WallBingXfce4.SameLastImageCommand | xfce4/wallpapers/wallBing.py:35-38 | Each command equals the other variant's last-image command for that monitor minus the creation options, which the other variant passes (--create) |
| WallBingXfce4.SetWallpaper | xfce4/wallpapers/wallBing.py:32-40 | xrandr missing: nothing issued, raises; otherwise the commands are issued in order up to the first that cannot start |
| WallBingXfce4.Run | xfce4/wallpapers/wallBing.py:42-61 | No display: returns with no effect. Feed failure: raises after the feed request. Otherwise the directory and effects are the download loop's, and its error is raised. No file for today: returns with no command. Otherwise the commands run, raising if xrandr or an xfconf-query cannot start |

## Left out

- HTTP requests, BeautifulSoup parsing, PIL decoding and drawing, and `subprocess` are outside the model. Each enters as a parameter: the image fetch, the page outcome, the annotator, `xrandr`'s output and whether a command starts.
- The `textwrap` wrap width and the font size are computed in floating point. They are left out; the measured text box is an input of `CaptionLayout.Place`.
- `CaptionLayout.Place` is not wired into `WallBingXfce.AddTextToImage`: the annotator stands for the whole drawing step.
- CaptionLayout.Place: the text box it states is the one the script computes, starting at the point the text is drawn from. The script does not subtract the measured box's own top offset, so the drawn glyphs can sit lower than that box; glyph rendering is not modelled.
- `CaptionLayout.Place` writes `int(width / 20)` as integer division. The two agree for every width below 2^53.
- Logging, the log file, `print`, `mkdir` and the directory's own location are not modelled. The same goes for the `BING_WALLPAPER_COUNTRY`/`BING_WALLPAPER_PATH` variables.
- Concurrent runs against the same directory are not modelled.
- One `today` serves the whole run. The script reads the date again for each undated item, so a run that crosses midnight can cache such an item under the next day's name; the model does not capture that.
- The image fetch and the page fetch are functions of the URL: within one run, two requests for the same URL get the same answer.
- Path normalisation by `pathlib` is not modelled. A date holding '/' or '..' is treated as a plain file name.
- `Text.Lower` lower-cases ASCII letters only, while Python's `str.lower` is Unicode-wide.
- Feed items that are not JSON objects are not modelled, and neither are non-string values (such as a null date, which Python would turn into "None.jpg"). Only present or absent string fields are modelled.
- A failure while writing a file is not modelled. Neither is the exit code of a started command, which the script ignores.
- Exceptions other than the modelled kinds are not modelled. An unexpected exception inside `get_text_from_url` gives "" like a network error, and the model merges the two into `Unreachable`.
