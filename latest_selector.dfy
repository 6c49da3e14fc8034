/** Choosing the latest stored picture: over a full table scan (`home`,
    `latest_photo`) and across the newest item of each category
    (`get_last_saved_photo`). */
module LatestSelector {
  import opened Wrappers
  import opened Timestamps
  import opened RecordStore

  // ---------------------------------------------------------------------
  // `home` / `latest_photo`: `max(items, key=lambda x: int(x['Timestamp']))`
  // ---------------------------------------------------------------------

  /** What the two scan endpoints report: "No images found", the chosen item,
      or the caught exception. `latest_photo` answers these with HTTP 404, 200
      and 500; `home` renders all three as pages with Flask's default 200. */
  datatype ScanOutcome = NotFound | Found(item: Item) | Failed

  /** The key of every item, or `None` as soon as one key cannot be computed
      (a missing `Timestamp` is a `KeyError`, a bad one a `ValueError`). */
  function Keys(items: seq<Item>): (r: Option<seq<int>>)
    ensures r.Some? <==> forall i :: 0 <= i < |items| ==> TimestampOf(items[i]).Some?
    ensures r.Some? ==> |r.value| == |items|
    ensures r.Some? ==> forall i :: 0 <= i < |items| ==> r.value[i] == TimestampOf(items[i]).value
  {
    if items == [] then Some([])
    else
      match TimestampOf(items[0])
      case None => None
      case Some(k) =>
        match Keys(items[1..])
        case None => None
        case Some(ks) => Some([k] + ks)
  }

  /** Python's `max` walks left to right and replaces its candidate only on a
      strictly greater key, so it returns the first maximal element. */
  function FirstMaxIndex(keys: seq<int>): (k: nat)
    requires keys != []
    ensures k < |keys|
    ensures forall j :: 0 <= j < |keys| ==> keys[j] <= keys[k]
    ensures forall j :: 0 <= j < k ==> keys[j] < keys[k]
  {
    if |keys| == 1 then 0
    else
      var last := |keys| - 1;
      var k := FirstMaxIndex(keys[..last]);
      if keys[last] > keys[k] then last else k
  }

  /** `items[k]` has the greatest timestamp of all items, and strictly greater
      than every item before it. */
  ghost predicate IsFirstLatest(items: seq<Item>, k: int) {
    && 0 <= k < |items|
    && (forall j :: 0 <= j < |items| ==> TimestampOf(items[j]).Some?)
    && (forall j :: 0 <= j < |items| ==> TimestampOf(items[j]).value <= TimestampOf(items[k]).value)
    && (forall j :: 0 <= j < k ==> TimestampOf(items[j]).value < TimestampOf(items[k]).value)
  }

  /** The selection over a scan that returned `items`. */
  function SelectLatest(items: seq<Item>): (r: ScanOutcome)
    ensures r == NotFound <==> items == []
    ensures r == Failed <==> items != [] && exists i :: 0 <= i < |items| && TimestampOf(items[i]).None?
    ensures r.Found? ==> exists k :: IsFirstLatest(items, k) && r.item == items[k]
  {
    if items == [] then NotFound
    else
      match Keys(items)
      case None => Failed
      case Some(keys) => Found(items[FirstMaxIndex(keys)])
  }

  /** The whole endpoint: an exception from `table.scan()` is caught too. */
  function LatestPhoto(scan: Reply<seq<Item>>): (r: ScanOutcome)
    ensures r == NotFound <==> scan == Answered([])
    ensures r == Failed <==> scan.Raised? || (exists i :: 0 <= i < |scan.value| && TimestampOf(scan.value[i]).None?)
    ensures r.Found? ==> scan.Answered? && exists k :: IsFirstLatest(scan.value, k) && r.item == scan.value[k]
  {
    match scan
    case Raised(_) => Failed
    case Answered(items) => SelectLatest(items)
  }

  /** The first latest item is unique, so it is exactly what is selected. */
  lemma SelectLatestChoosesFirstLatest(items: seq<Item>, k: int)
    requires IsFirstLatest(items, k)
    ensures SelectLatest(items) == Found(items[k])
  {
    var r := SelectLatest(items);
    assert !r.Failed?;
    var k' :| IsFirstLatest(items, k') && r.item == items[k'];
    assert k' == k;
  }

  /** Three categories stored at 1000, 2000 and 1500 ms: the bear item wins. */
  lemma BearIsLatest()
    ensures var dog := Item("dog", Some("1000"), Some("d"), Some("1"));
            var bear := Item("bear", Some("2000"), Some("b"), Some("2"));
            var cat := Item("cat", Some("1500"), Some("c"), Some("3"));
            SelectLatest([dog, bear, cat]) == Found(bear)
  {
    var dog := Item("dog", Some("1000"), Some("d"), Some("1"));
    var bear := Item("bear", Some("2000"), Some("b"), Some("2"));
    var cat := Item("cat", Some("1500"), Some("c"), Some("3"));
    assert TimestampOf(dog) == Some(1000) by {
      assert DigitsValue("1") == 1 by { assert "1"[..0] == ""; }
      assert DigitsValue("10") == 10 by { assert "10"[..1] == "1"; }
      assert DigitsValue("100") == 100 by { assert "100"[..2] == "10"; }
      assert DigitsValue("1000") == 1000 by { assert "1000"[..3] == "100"; }
    }
    assert TimestampOf(bear) == Some(2000) by {
      assert DigitsValue("2") == 2 by { assert "2"[..0] == ""; }
      assert DigitsValue("20") == 20 by { assert "20"[..1] == "2"; }
      assert DigitsValue("200") == 200 by { assert "200"[..2] == "20"; }
      assert DigitsValue("2000") == 2000 by { assert "2000"[..3] == "200"; }
    }
    assert TimestampOf(cat) == Some(1500) by {
      assert DigitsValue("1") == 1 by { assert "1"[..0] == ""; }
      assert DigitsValue("15") == 15 by { assert "15"[..1] == "1"; }
      assert DigitsValue("150") == 150 by { assert "150"[..2] == "15"; }
      assert DigitsValue("1500") == 1500 by { assert "1500"[..3] == "150"; }
    }
    SelectLatestChoosesFirstLatest([dog, bear, cat], 1);
  }

  /** A run that writes with a strictly increasing clock, after earlier items
      that are all older than its first write, makes its last write the one
      the scan endpoints report, in whatever order the scan lists the table. */
  lemma LatestAfterSave(scan: seq<Item>, before: seq<Item>, animalType: string, urls: seq<string>,
                        clock: nat -> nat, newId: nat -> string)
    requires urls != []
    requires forall a: nat, b: nat :: a < b < |urls| ==> clock(a) < clock(b)
    requires forall j :: 0 <= j < |before| ==> TimestampOf(before[j]).Some? && TimestampOf(before[j]).value < clock(0)
    requires multiset(scan) == multiset(before + Written(animalType, urls, clock, newId))
    ensures SelectLatest(scan) == Found(Written(animalType, urls, clock, newId)[|urls| - 1])
  {
    var written := Written(animalType, urls, clock, newId);
    var items := before + written;
    var last := |urls| - 1;
    var newest := written[last];
    WrittenReadsBack(animalType, urls, clock, newId, last);
    forall x | x in items
      ensures TimestampOf(x).Some? && TimestampOf(x).value <= clock(last)
      ensures TimestampOf(x).value == clock(last) ==> x == newest
    {
      var j :| 0 <= j < |items| && items[j] == x;
      if j < |before| {
        assert items[j] == before[j];
        assert 0 == last || clock(0) < clock(last);
      } else {
        assert items[j] == written[j - |before|];
        WrittenReadsBack(animalType, urls, clock, newId, j - |before|);
      }
    }
    forall i | 0 <= i < |scan|
      ensures scan[i] in items
    {
      assert scan[i] in multiset(scan);
    }
    assert newest in multiset(items);
    assert newest in scan;
    var r := SelectLatest(scan);
    var k :| IsFirstLatest(scan, k) && r.item == scan[k];
    var i :| 0 <= i < |scan| && scan[i] == newest;
    assert TimestampOf(scan[i]).value <= TimestampOf(scan[k]).value;
  }

  // ---------------------------------------------------------------------
  // `get_last_saved_photo(animal_types)`
  // ---------------------------------------------------------------------

  /** The record built for the chosen category. */
  datatype Photo = Photo(animalType: string, rawTimestamp: int, imageURL: string)

  /** The function's result: the record, the "No valid photos found" error, or
      the error carrying the text of an exception caught by the outer `try`. */
  datatype LastSaved = Latest(photo: Photo) | NoValidPhotos | Aborted(reason: string)

  /** The state of the loop: the best record so far, or the exception that
      left it. */
  datatype Progress = Scanning(best: Option<Photo>) | Stopped(reason: string)

  /** `str(KeyError('ImageURL'))`, raised by `last_picture['ImageURL']`. */
  const MissingImageURL: string := "'ImageURL'"

  /** What `table.query(..., ScanIndexForward=False, Limit=1)` gave for one
      category: the newest item by the store's sort key, none, or an
      exception. */
  type QueryReply = Reply<Option<Item>>

  /** The parsed timestamp of a category's item, when it has a valid one. */
  function ReplyKey(reply: QueryReply): Option<int> {
    match reply
    case Answered(Some(item)) => TimestampOf(item)
    case _ => None
  }

  /** A category the loop passes over with `continue` (or no item at all). */
  predicate Skipped(reply: QueryReply) {
    reply.Answered? && ReplyKey(reply).None?
  }

  /** The queried item exists but has no `ImageURL` attribute. */
  predicate URLMissing(reply: QueryReply) {
    reply.Answered? && reply.value.Some? && reply.value.value.imageURL.None?
  }

  /** One iteration of the loop, for category `animalType`. */
  function Step(p: Progress, animalType: string, reply: QueryReply): Progress {
    match p
    case Stopped(_) => p
    case Scanning(best) =>
      match reply
      case Raised(reason) => Stopped(reason)
      case Answered(None) => p
      case Answered(Some(item)) =>
        match TimestampOf(item)
        case None => p
        case Some(t) =>
          if best.None? || t > best.value.rawTimestamp then
            match item.imageURL
            case None => Stopped(MissingImageURL)
            case Some(url) => Scanning(Some(Photo(animalType, t, url)))
          else
            p
  }

  /** The loop state after the given categories, in order. */
  function After(animalTypes: seq<string>, query: string -> QueryReply): Progress {
    if animalTypes == [] then Scanning(None)
    else
      var last := |animalTypes| - 1;
      Step(After(animalTypes[..last], query), animalTypes[last], query(animalTypes[last]))
  }

  /** What `get_last_saved_photo` returns when `query(c)` is the store's answer
      for category `c`. */
  function LastSavedPhoto(animalTypes: seq<string>, query: string -> QueryReply): LastSaved {
    match After(animalTypes, query)
    case Stopped(reason) => Aborted(reason)
    case Scanning(None) => NoValidPhotos
    case Scanning(Some(photo)) => Latest(photo)
  }

  function KeyAt(animalTypes: seq<string>, query: string -> QueryReply, j: int): Option<int>
    requires 0 <= j < |animalTypes|
  {
    ReplyKey(query(animalTypes[j]))
  }

  /** Category `i` is the source of `photo`. */
  ghost predicate ChosenFrom(animalTypes: seq<string>, query: string -> QueryReply, i: int, photo: Photo) {
    && 0 <= i < |animalTypes|
    && photo.animalType == animalTypes[i]
    && KeyAt(animalTypes, query, i) == Some(photo.rawTimestamp)
    && query(animalTypes[i]).Answered?
    && query(animalTypes[i]).value.Some?
    && query(animalTypes[i]).value.value.imageURL == Some(photo.imageURL)
  }

  /** Category `k` has a valid timestamp greater than that of every category
      before it: the loop replaces its record there. */
  ghost predicate Improves(animalTypes: seq<string>, query: string -> QueryReply, k: int) {
    && 0 <= k < |animalTypes|
    && KeyAt(animalTypes, query, k).Some?
    && forall j :: 0 <= j < k && KeyAt(animalTypes, query, j).Some? ==>
         KeyAt(animalTypes, query, j).value < KeyAt(animalTypes, query, k).value
  }

  /** The error value comes back exactly when every category was skipped; in
      particular for an empty list of categories. */
  lemma {:induction false} NoValidPhotosExactly(animalTypes: seq<string>, query: string -> QueryReply)
    ensures LastSavedPhoto(animalTypes, query) == NoValidPhotos
        <==> forall j :: 0 <= j < |animalTypes| ==> Skipped(query(animalTypes[j]))
  {
    if animalTypes != [] {
      var last := |animalTypes| - 1;
      var init := animalTypes[..last];
      NoValidPhotosExactly(init, query);
      assert forall j :: 0 <= j < last ==> init[j] == animalTypes[j];
      assert forall j :: 0 <= j < last ==> KeyAt(init, query, j) == KeyAt(animalTypes, query, j);
    }
  }

  /** A returned record has the greatest valid timestamp of all categories,
      comes from one category's queried item, and that category is the first
      one holding this timestamp. No query raised. */
  lemma {:induction false} LatestIsMaximal(animalTypes: seq<string>, query: string -> QueryReply, photo: Photo)
    requires LastSavedPhoto(animalTypes, query) == Latest(photo)
    ensures forall j :: 0 <= j < |animalTypes| ==> query(animalTypes[j]).Answered?
    ensures forall j :: 0 <= j < |animalTypes| && KeyAt(animalTypes, query, j).Some? ==>
              KeyAt(animalTypes, query, j).value <= photo.rawTimestamp
    ensures exists i :: ChosenFrom(animalTypes, query, i, photo) &&
              forall j :: 0 <= j < i && KeyAt(animalTypes, query, j).Some? ==>
                KeyAt(animalTypes, query, j).value < photo.rawTimestamp
  {
    var last := |animalTypes| - 1;
    var init := animalTypes[..last];
    var reply := query(animalTypes[last]);
    assert forall j :: 0 <= j < last ==> init[j] == animalTypes[j];
    assert forall j :: 0 <= j < last ==> KeyAt(init, query, j) == KeyAt(animalTypes, query, j);
    var prev := After(init, query);
    var key := ReplyKey(reply);
    if prev.Scanning? && key.Some? && (prev.best.None? || key.value > prev.best.value.rawTimestamp) {
      // The last category replaced the record.
      if prev.best.None? {
        NoValidPhotosExactly(init, query);
      } else {
        LatestIsMaximal(init, query, prev.best.value);
      }
      assert ChosenFrom(animalTypes, query, last, photo);
    } else if prev.Scanning? && prev.best.Some? {
      // The last category was skipped or not newer: the record is unchanged.
      LatestIsMaximal(init, query, prev.best.value);
      var i :| ChosenFrom(init, query, i, photo) &&
                forall j :: 0 <= j < i && KeyAt(init, query, j).Some? ==>
                  KeyAt(init, query, j).value < photo.rawTimestamp;
      assert ChosenFrom(animalTypes, query, i, photo);
    }
  }

  /** A category that is skipped changes nothing, wherever it stands. */
  lemma {:induction false} SkippedCategoryIsIgnored(before: seq<string>, c: string, after: seq<string>,
                                                    query: string -> QueryReply)
    requires Skipped(query(c))
    ensures After(before + [c] + after, query) == After(before + after, query)
    ensures LastSavedPhoto(before + [c] + after, query) == LastSavedPhoto(before + after, query)
  {
    var xs := before + [c] + after;
    var ys := before + after;
    if after == [] {
      assert xs[..|xs| - 1] == before;
      assert ys == before;
    } else {
      var last := |after| - 1;
      SkippedCategoryIsIgnored(before, c, after[..last], query);
      assert xs[..|xs| - 1] == before + [c] + after[..last];
      assert ys[..|ys| - 1] == before + after[..last];
    }
  }

  /** Category `k` is where the loop stops with `reason`: every earlier query
      answered and no earlier category replaced the record without an
      `ImageURL`, and there the query raises `reason`, or the item would
      replace the record but has no `ImageURL`. */
  ghost predicate FirstCause(animalTypes: seq<string>, query: string -> QueryReply, reason: string, k: int) {
    && 0 <= k < |animalTypes|
    && (forall j :: 0 <= j < k ==> query(animalTypes[j]).Answered?)
    && (forall j :: 0 <= j < k ==> !(Improves(animalTypes, query, j) && URLMissing(query(animalTypes[j]))))
    && (query(animalTypes[k]) == Raised(reason) ||
        (reason == MissingImageURL && Improves(animalTypes, query, k) && URLMissing(query(animalTypes[k]))))
  }

  /** An error other than "no valid photos" has a first cause: a query that
      raised, or a category that would replace the record but has no
      `ImageURL`. Every query before it answered, and no category before it
      would have replaced the record without an `ImageURL`. */
  lemma {:induction false} AbortedHasCause(animalTypes: seq<string>, query: string -> QueryReply, reason: string)
    requires LastSavedPhoto(animalTypes, query) == Aborted(reason)
    ensures exists k :: FirstCause(animalTypes, query, reason, k)
  {
    var last := |animalTypes| - 1;
    var init := animalTypes[..last];
    assert forall j :: 0 <= j < last ==> init[j] == animalTypes[j];
    var prev := After(init, query);
    if prev.Stopped? {
      AbortedHasCause(init, query, reason);
      var k :| FirstCause(init, query, reason, k);
      forall j | 0 <= j <= k
        ensures Improves(init, query, j) == Improves(animalTypes, query, j)
      {
        ImprovesOnPrefix(animalTypes, query, last, j);
      }
      assert FirstCause(animalTypes, query, reason, k);
    } else {
      ScanningHasNoFault(init, query);
      forall j | 0 <= j < last
        ensures Improves(init, query, j) == Improves(animalTypes, query, j)
      {
        ImprovesOnPrefix(animalTypes, query, last, j);
      }
      assert forall j :: 0 <= j < last ==> KeyAt(init, query, j) == KeyAt(animalTypes, query, j);
      if prev.best.None? {
        NoValidPhotosExactly(init, query);
      } else {
        LatestIsMaximal(init, query, prev.best.value);
      }
      assert query(animalTypes[last]).Answered? ==> Improves(animalTypes, query, last);
      assert FirstCause(animalTypes, query, reason, last);
    }
  }

  /** Whether a category would replace the record depends only on the
      categories up to it. */
  lemma ImprovesOnPrefix(animalTypes: seq<string>, query: string -> QueryReply, n: nat, j: int)
    requires 0 <= j < n <= |animalTypes|
    ensures Improves(animalTypes[..n], query, j) == Improves(animalTypes, query, j)
  {
    assert forall i :: 0 <= i <= j ==> KeyAt(animalTypes[..n], query, i) == KeyAt(animalTypes, query, i);
  }

  /** While the loop has not stopped, every query so far answered and every
      category that replaced the record had an `ImageURL`. This holds in
      particular whenever a record or "no valid photos" is returned. */
  lemma {:induction false} ScanningHasNoFault(animalTypes: seq<string>, query: string -> QueryReply)
    requires After(animalTypes, query).Scanning?
    ensures forall j :: 0 <= j < |animalTypes| ==> query(animalTypes[j]).Answered?
    ensures forall j :: 0 <= j < |animalTypes| && Improves(animalTypes, query, j) ==> !URLMissing(query(animalTypes[j]))
  {
    if animalTypes != [] {
      var last := |animalTypes| - 1;
      var init := animalTypes[..last];
      assert forall j :: 0 <= j < last ==> init[j] == animalTypes[j];
      assert forall j :: 0 <= j < last ==> KeyAt(init, query, j) == KeyAt(animalTypes, query, j);
      forall j | 0 <= j < last
        ensures Improves(init, query, j) == Improves(animalTypes, query, j)
      {
        ImprovesOnPrefix(animalTypes, query, last, j);
      }
      var prev := After(init, query);
      ScanningHasNoFault(init, query);
      if prev.best.Some? {
        var p := prev.best.value;
        LatestIsMaximal(init, query, p);
        var i :| ChosenFrom(init, query, i, p) &&
                 forall j :: 0 <= j < i && KeyAt(init, query, j).Some? ==>
                   KeyAt(init, query, j).value < p.rawTimestamp;
        assert KeyAt(animalTypes, query, i) == Some(p.rawTimestamp);
        assert Improves(animalTypes, query, last) ==> KeyAt(animalTypes, query, last).value > p.rawTimestamp;
      }
    }
  }

  /** Conversely, a category whose item would replace the record but has no
      `ImageURL` makes the call fail with the `KeyError` text, provided no
      query up to it raised. */
  lemma {:induction false} AbortsOnMissingURL(animalTypes: seq<string>, query: string -> QueryReply, k: nat)
    requires k < |animalTypes|
    requires forall j :: 0 <= j <= k ==> query(animalTypes[j]).Answered?
    requires Improves(animalTypes, query, k)
    requires URLMissing(query(animalTypes[k]))
    ensures LastSavedPhoto(animalTypes, query) == Aborted(MissingImageURL)
  {
    var init := animalTypes[..k];
    assert forall j :: 0 <= j < k ==> init[j] == animalTypes[j];
    assert forall j :: 0 <= j < k ==> KeyAt(init, query, j) == KeyAt(animalTypes, query, j);
    var prev := After(init, query);
    if prev.Stopped? {
      StoppedIsFinal(animalTypes, query, k);
      AbortedHasCause(init, query, prev.reason);
    } else {
      if prev.best.Some? {
        var p := prev.best.value;
        LatestIsMaximal(init, query, p);
        var i :| ChosenFrom(init, query, i, p) &&
                 forall j :: 0 <= j < i && KeyAt(init, query, j).Some? ==>
                   KeyAt(init, query, j).value < p.rawTimestamp;
        assert KeyAt(animalTypes, query, i) == Some(p.rawTimestamp);
      }
      assert animalTypes[..k + 1][..k] == init;
      assert After(animalTypes[..k + 1], query) == Stopped(MissingImageURL);
      StoppedIsFinal(animalTypes, query, k + 1);
    }
  }

  /** When every query answers, at least one category has a valid timestamp
      and every category that would replace the record has an `ImageURL`, a
      record is returned. */
  lemma {:induction false} LatestFoundWhenAnswered(animalTypes: seq<string>, query: string -> QueryReply)
    requires forall j :: 0 <= j < |animalTypes| ==> query(animalTypes[j]).Answered?
    requires forall k :: 0 <= k < |animalTypes| && Improves(animalTypes, query, k) ==> !URLMissing(query(animalTypes[k]))
    requires exists j :: 0 <= j < |animalTypes| && KeyAt(animalTypes, query, j).Some?
    ensures LastSavedPhoto(animalTypes, query).Latest?
  {
    StillScanning(animalTypes, query);
    NoValidPhotosExactly(animalTypes, query);
    var j :| 0 <= j < |animalTypes| && KeyAt(animalTypes, query, j).Some?;
    assert !Skipped(query(animalTypes[j]));
  }

  lemma {:induction false} StillScanning(animalTypes: seq<string>, query: string -> QueryReply)
    requires forall j :: 0 <= j < |animalTypes| ==> query(animalTypes[j]).Answered?
    requires forall k :: 0 <= k < |animalTypes| && Improves(animalTypes, query, k) ==> !URLMissing(query(animalTypes[k]))
    ensures After(animalTypes, query).Scanning?
  {
    if animalTypes != [] {
      var last := |animalTypes| - 1;
      var init := animalTypes[..last];
      assert forall j :: 0 <= j < last ==> init[j] == animalTypes[j];
      assert forall j :: 0 <= j < last ==> KeyAt(init, query, j) == KeyAt(animalTypes, query, j);
      forall k | 0 <= k < |init| && Improves(init, query, k)
        ensures !URLMissing(query(init[k]))
      {
        assert Improves(animalTypes, query, k);
      }
      StillScanning(init, query);
      var prev := After(init, query);
      if prev.best.None? {
        NoValidPhotosExactly(init, query);
      } else {
        LatestIsMaximal(init, query, prev.best.value);
      }
      var key := KeyAt(animalTypes, query, last);
      assert key.Some? && (prev.best.None? || key.value > prev.best.value.rawTimestamp) ==>
        Improves(animalTypes, query, last);
    }
  }

  /** Once an exception leaves the loop, later categories change nothing. */
  lemma {:induction false} StoppedIsFinal(animalTypes: seq<string>, query: string -> QueryReply, k: nat)
    requires k <= |animalTypes|
    requires After(animalTypes[..k], query).Stopped?
    ensures After(animalTypes, query) == After(animalTypes[..k], query)
  {
    if k == |animalTypes| {
      assert animalTypes[..k] == animalTypes;
    } else {
      var last := |animalTypes| - 1;
      var init := animalTypes[..last];
      assert init[..k] == animalTypes[..k];
      StoppedIsFinal(init, query, k);
    }
  }

  /** `get_last_saved_photo(animal_types)` with `query` standing for
      `table.query` on the category key. */
  method GetLastSavedPhoto(animalTypes: seq<string>, query: string -> QueryReply) returns (result: LastSaved)
    ensures result == LastSavedPhoto(animalTypes, query)
  {
    var latestPhoto: Option<Photo> := None;
    var latestTimestamp: Option<int> := None;
    var i := 0;
    while i < |animalTypes|
      invariant 0 <= i <= |animalTypes|
      invariant After(animalTypes[..i], query) == Scanning(latestPhoto)
      invariant latestTimestamp == if latestPhoto.Some? then Some(latestPhoto.value.rawTimestamp) else None
    {
      var animalType := animalTypes[i];
      assert animalTypes[..i + 1][..i] == animalTypes[..i];
      var response := query(animalType);
      if response.Raised? {
        StoppedIsFinal(animalTypes, query, i + 1);
        return Aborted(response.reason);
      }
      if response.value.Some? {
        var lastPicture := response.value.value;
        var rawTimestamp := lastPicture.timestamp;
        if rawTimestamp.None? || rawTimestamp.value == "" {
          i := i + 1;
          continue;
        }
        var parsed := ParseInt(rawTimestamp.value);
        if parsed.None? {
          i := i + 1;
          continue;
        }
        if latestTimestamp.None? || parsed.value > latestTimestamp.value {
          if lastPicture.imageURL.None? {
            StoppedIsFinal(animalTypes, query, i + 1);
            return Aborted(MissingImageURL);
          }
          latestPhoto := Some(Photo(animalType, parsed.value, lastPicture.imageURL.value));
          latestTimestamp := Some(parsed.value);
        }
      }
      i := i + 1;
    }
    assert animalTypes[..i] == animalTypes;
    if latestPhoto.Some? {
      result := Latest(latestPhoto.value);
    } else {
      result := NoValidPhotos;
    }
  }
}
