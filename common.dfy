/** Values shared by both variants of the wallpaper script: optional values,
    results carrying the script's error kinds, raw file contents and the
    feed items the remote JSON endpoint returns. */
module Common {

  /** A value that may be absent: a missing JSON key, an unset environment
      variable, a heading the page does not have. */
  datatype Option<+T> = None | Some(value: T) {
    function GetOr(default: T): T {
      match this
      case Some(v) => v
      case None => default
    }
  }

  /** The exceptions the script raises, one constructor per kind. */
  datatype Error =
    | MissingImageUrl           // ValueError: the item has no usable 'imageUrl'
    | MissingKey(key: string)   // KeyError on item['date'] / item['imageUrl']
    | HttpError(url: string)    // requests.RequestException, raise_for_status
    | FeedUnavailable           // the feed request or its JSON decoding failed
    | CommandFailed(program: string)  // subprocess.run could not start a program

  datatype Result<+T> = Ok(value: T) | Err(error: Error)

  /** The content of a file: raw bytes. */
  type Bytes = seq<bv8>

  /** One element of the JSON array the feed returns; a field is None when
      its key is absent from the object. */
  datatype FeedItem = FeedItem(date: Option<string>, imageUrl: Option<string>, pageUrl: Option<string>)

  /** The outside effects an operation performs, in order. */
  datatype Event =
    | FetchFeed                               // GET on the feed endpoint
    | FetchImage(url: string)                 // GET on an item's imageUrl
    | FetchPage(url: string)                  // GET on an item's pageUrl
    | AnnotateImage(name: string, text: string)  // add_text_to_image on a cached file

  /** What a step did to the wallpapers directory: the directory afterwards,
      its result and the effects it performed. */
  datatype Outcome<+T> = Outcome(files: map<string, Bytes>, result: Result<T>, trace: seq<Event>)

  /** `big` keeps every file of `small`, byte for byte. */
  ghost predicate Extends(big: map<string, Bytes>, small: map<string, Bytes>) {
    forall n :: n in small ==> n in big && big[n] == small[n]
  }

  /** Concatenation regroups freely; stated once so that proofs can name it. */
  lemma AppendAssoc<T>(x: seq<T>, y: seq<T>, z: seq<T>)
    ensures x + (y + z) == (x + y) + z
  {
  }

  /** Slicing a concatenation inside its first part. */
  lemma AppendSlices<T>(a: seq<T>, x: seq<T>, i: nat)
    requires i <= |a|
    ensures (a + x)[..i] == a[..i] && (a + x)[i..] == a[i..] + x
  {
  }
}
