# Animal pictures: ingestion and latest-photo selection

A Dafny model of the decision logic of a small Flask service that fetches
dog pictures, stores one record per picture in a DynamoDB table
(`AnimalPictures`: `AnimalType`, `Timestamp` as a decimal string of
milliseconds, `ImageURL`, `ImageID`) and reports the most recent picture.

Every external call is an input of the model:

- each `requests.get` attempt is an `Attempt` (a status code or a
  `RequestException`), given per attempt index;
- the table is the `items` sequence of a `RecordStore.Table` object, which
  `SaveImages` appends to; the clock reading, the uuid and whether each
  `put_item` raised are given per write index;
- `table.query(... Limit=1)` is a function from category to
  `Reply<Option<Item>>` (the newest item by the store's own ordering, none,
  or an exception). The model does not assume that this item has the
  numerically greatest timestamp of its category;
- `table.scan()` is a `Reply<seq<Item>>`.

Modules:

- `Wrappers` (`option.dfy`): the `Option` type the other modules share.
- `Timestamps` (`timestamps.dfy`): `int(s)` as `ParseInt` and `str(n)` as
  `ShowNat`, with their round trip.
- `Fetcher` (`fetcher.dfy`): `fetch_pictures` as a loop over attempts.
- `RecordStore` (`record_store.dfy`): the item type, the table as a class,
  and `save_images_to_dynamodb` as a loop of `put_item` calls.
- `LatestSelector` (`latest_selector.dfy`): the `max(..., key=...)`
  selection of `home` and `latest_photo`, and `get_last_saved_photo` as a
  loop proved against a left fold (`After`) whose properties are lemmas.

Behaviour of `app.py` that the model keeps:

- `fetch_pictures` requests the fixed URL `https://place.dog/200/300`.
- An exception from `put_item` is not caught: it ends
  `save_images_to_dynamodb`, and the later URLs are not written.
- An exception from `table.query` ends `get_last_saved_photo` with an error
  value carrying the exception's text.
- In `home` and `latest_photo`, one missing or non-integer `Timestamp`
  makes the whole call an error.
- The category list is a Python list, so the tie-break is deterministic:
  the earlier category wins.

## Model

| member | source | states |
|---|---|---|
| `Timestamps.ParseInt` | app.py:76-80 | `int(s)` fails on the empty string; an all-digit string gives its decimal value; a sign followed by digits gives the signed value; any accepted string is a sign and digits, or digits only; only a leading `-` gives a negative value |
| `Timestamps.ShowNat` | app.py:47 | `str(n)` of a millisecond count is a non-empty digit string with value `n` and no leading zero |
| `Timestamps.ParseShowRoundTrip` | app.py:47 | a timestamp written as `str(n)` parses back to exactly `n` |
| `Fetcher.Successes` | app.py:28-33 | the number of images from the first `n` attempts is at most `n`, and 0 when `n <= 0` |
| `Fetcher.SuccessesCountsSucceeded` | app.py:28-35 | that number is the size of the set of attempts that got status 200 |
| `Fetcher.NoImagesIffAllFailed` | app.py:28-37 | no image is returned exactly when every attempt failed or there were no attempts |
| `Fetcher.AllImagesWhenAllSucceed` | app.py:28-33 | when every attempt gets status 200, `count` images are returned |
| `Fetcher.FetchPictures` | app.py:25-38 | the result holds one element per attempt with status 200, each the fixed URL, at most `count` in all; failed attempts raise nothing |
| `RecordStore.TimestampOf` | app.py:70-80 | a missing or empty `Timestamp` has no value; a stored string that `int()` accepts gives a value, and that value is its parse |
| `RecordStore.Written` | app.py:42-50 | one item per URL |
| `RecordStore.WrittenReadsBack` | app.py:42-50 | the i-th written item has the given category, the i-th URL, the i-th id, and reads back with the i-th clock reading |
| `RecordStore.WrittenTimestampsOrdered` | app.py:42-50 | with a clock that never goes back, later writes read back with timestamps no smaller than earlier ones |
| `RecordStore.Table.constructor` | app.py:20 | the table handle sees whatever the table already holds |
| `RecordStore.Table.PutItem` | app.py:44-51 | a successful `put_item` appends exactly that item |
| `RecordStore.Table.SaveImages` | app.py:41-52 | the table becomes the old table plus one item per URL, in input order, up to the first `put_item` that raises; the failure is reported exactly when some URL was not written; an empty list writes nothing |
| `LatestSelector.Keys` | app.py:108 | all keys are computed exactly when every item has a valid timestamp, and then the i-th key is the i-th item's timestamp |
| `LatestSelector.FirstMaxIndex` | app.py:108 | `max` picks an index whose key is at least every key and greater than every earlier key |
| `LatestSelector.SelectLatest` | app.py:101-108 | an empty scan gives "not found"; one missing or unparsable timestamp gives an error; otherwise the chosen item has the greatest timestamp and is the first one with it |
| `LatestSelector.LatestPhoto` | app.py:117-137 | the endpoint answers 404 exactly for an empty scan, 500 exactly when the scan raises or some timestamp is invalid, and otherwise the first item with the greatest timestamp |
| `LatestSelector.SelectLatestChoosesFirstLatest` | app.py:108 | conversely, the first item with the greatest timestamp is always the one selected |
| `LatestSelector.BearIsLatest` | app.py:126 | over dog at 1000, bear at 2000 and cat at 1500, the bear item is selected |
| `LatestSelector.LatestAfterSave` | app.py:121-126 | when the scan returns every item in the table, after writes with a strictly increasing clock over older items, the scan endpoints report the last write, whatever order the scan lists the items in |
| `LatestSelector.NoValidPhotosExactly` | app.py:94-97 | the "no valid photos" error comes back exactly when every category was answered and skipped, including for an empty category list |
| `LatestSelector.LatestIsMaximal` | app.py:84-92 | a returned record's timestamp is at least every valid category timestamp; its type, timestamp and URL come from one category's item; that category is the first with this timestamp (earlier categories win ties); no query raised |
| `LatestSelector.SkippedCategoryIsIgnored` | app.py:68-80 | a category with no item or a missing, empty or non-integer timestamp can be removed without changing the result, wherever it stands |
| `LatestSelector.AbortedHasCause` | app.py:56-99 | an exception error has a first cause: before it every query answered and no replacing item lacked `ImageURL`; there the query raised with that text, or the replacing item lacks `ImageURL` |
| `LatestSelector.ScanningHasNoFault` | app.py:60-92 | while the loop runs on (so whenever a record or "no valid photos" is returned), every query so far answered and every replacing item had `ImageURL` |
| `LatestSelector.AbortsOnMissingURL` | app.py:84-90 | conversely, a replacing item without `ImageURL`, with no query raising up to it, makes the call fail with the `KeyError` text `'ImageURL'` |
| `LatestSelector.LatestFoundWhenAnswered` | app.py:84-95 | if every query answers, some category has a valid timestamp, and every replacing item has `ImageURL`, then a record is returned |
| `LatestSelector.StillScanning` | app.py:60-92 | under the same conditions, no exception leaves the loop |
| `LatestSelector.StoppedIsFinal` | app.py:98-99 | once an exception leaves the loop, the remaining categories do not change the result |
| `LatestSelector.GetLastSavedPhoto` | app.py:55-99 | the loop, with its `continue` skips and early exits, returns exactly the left fold `LastSavedPhoto` that the lemmas above describe |

## Left out

- AWS client construction and credentials from the environment
  (app.py:10-20): they are replaced by the inputs above.
- Real HTTP, including the 5-second timeout: each attempt's outcome is an
  input. Exceptions from `requests.get` other than `RequestException` are
  not modelled.
- `time.time()` and `uuid.uuid4()`: the millisecond reading (already
  truncated by `int(...)`, and non-negative) and the id are inputs per
  write. Float rounding of `time.time() * 1000` is not modelled.
- `datetime.datetime.fromtimestamp(raw / 1000).isoformat()`: this is
  presentation only. The readable timestamp is omitted, so the model does
  not capture that it can raise for timestamps out of the platform's range.
- Flask routing, HTML and JSON rendering, and `print` logging. The
  `__main__` demo is not modelled either.
- DynamoDB key semantics: the real table overwrites an item with the same
  `AnimalType` and `Timestamp`. The model appends every write.
- How the store orders a category's items for `ScanIndexForward=False`:
  the answer is an input.
- A scan response without an `Items` key behaves like an empty one. It is
  modelled as an empty answer.
- Timestamps.ParseInt: does not accept surrounding whitespace,
  underscores between digits or non-ASCII digits, which Python's `int()`
  accepts.
- RecordStore.TimestampOf: treats a stored `Timestamp` as a string. A
  numeric attribute (a `Decimal`) is not modelled.
- The exception texts of the scan endpoints (`KeyError`, `ValueError`,
  scan errors) are collapsed into one `Failed` outcome.
- LatestSelector.LatestAfterSave: assumes the scan returns every item in
  the table. `home` and `latest_photo` call `table.scan()` once and do not
  follow `LastEvaluatedKey`, so a table larger than one scan page (1 MB)
  can leave the last write out. Scans are also eventually consistent by
  default, so a scan just after a write can miss it. Neither is modelled.
