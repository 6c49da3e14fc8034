/** The `AnimalPictures` table and `save_images_to_dynamodb`. The table is an
    append-only sequence of items; the clock, the id generator and the outcome
    of each `put_item` are supplied per write. */
module RecordStore {
  import opened Wrappers
  import opened Timestamps

  /** One stored item. `AnimalType` is the partition key and always present;
      the other attributes are read with `.get` or `[...]` by the readers, so
      they may be missing in what the store hands back. */
  datatype Item = Item(
    animalType: string,
    timestamp: Option<string>,
    imageURL: Option<string>,
    imageID: Option<string>)

  /** What a store call produced: an answer, or the exception it raised. */
  datatype Reply<T> = Answered(value: T) | Raised(reason: string)

  /** `int(item['Timestamp'])`: `None` when the attribute is missing, empty or
      not an integer literal. */
  function TimestampOf(item: Item): (t: Option<int>)
    ensures item.timestamp.None? ==> t.None?
    ensures item.timestamp == Some("") ==> t.None?
    ensures t.Some? ==> ParseInt(item.timestamp.value) == t
    ensures item.timestamp.Some? && ParseInt(item.timestamp.value).Some? ==> t.Some?
  {
    match item.timestamp
    case None => None
    case Some(raw) => ParseInt(raw)
  }

  /** The item `put_item` writes for one URL. */
  function NewItem(animalType: string, url: string, millis: nat, id: string): Item {
    Item(animalType, Some(ShowNat(millis)), Some(url), Some(id))
  }

  /** The items written for `urls`, the i-th with the i-th clock reading and id. */
  function Written(animalType: string, urls: seq<string>, clock: nat -> nat, newId: nat -> string): (r: seq<Item>)
    ensures |r| == |urls|
  {
    if urls == [] then []
    else
      var last := |urls| - 1;
      Written(animalType, urls[..last], clock, newId) + [NewItem(animalType, urls[last], clock(last), newId(last))]
  }

  /** Every written item reads back with its category, its URL and the clock
      reading of its own write. */
  lemma {:induction false} WrittenReadsBack(animalType: string, urls: seq<string>, clock: nat -> nat, newId: nat -> string, i: nat)
    requires i < |urls|
    ensures Written(animalType, urls, clock, newId)[i].animalType == animalType
    ensures Written(animalType, urls, clock, newId)[i].imageURL == Some(urls[i])
    ensures Written(animalType, urls, clock, newId)[i].imageID == Some(newId(i))
    ensures TimestampOf(Written(animalType, urls, clock, newId)[i]) == Some(clock(i))
  {
    var last := |urls| - 1;
    if i < last {
      WrittenReadsBack(animalType, urls[..last], clock, newId, i);
    } else {
      ParseShowRoundTrip(clock(i));
    }
  }

  /** A clock that never runs backwards gives items whose stored timestamps
      read back in non-decreasing order. */
  lemma WrittenTimestampsOrdered(animalType: string, urls: seq<string>, clock: nat -> nat, newId: nat -> string, i: nat, j: nat)
    requires i <= j < |urls|
    requires forall a: nat, b: nat :: a <= b < |urls| ==> clock(a) <= clock(b)
    ensures TimestampOf(Written(animalType, urls, clock, newId)[i]).Some?
    ensures TimestampOf(Written(animalType, urls, clock, newId)[j]).Some?
    ensures TimestampOf(Written(animalType, urls, clock, newId)[i]).value
         <= TimestampOf(Written(animalType, urls, clock, newId)[j]).value
  {
    WrittenReadsBack(animalType, urls, clock, newId, i);
    WrittenReadsBack(animalType, urls, clock, newId, j);
  }

  class Table {
    /** Every item in the table, in the order it was written. */
    var items: seq<Item>

    /** `dynamodb.Table('AnimalPictures')`: a handle on the existing table,
        which already holds `stored`. */
    constructor (stored: seq<Item>)
      ensures items == stored
    {
      items := stored;
    }

    /** `table.put_item(Item=...)` that succeeded. */
    method PutItem(item: Item)
      modifies this
      ensures items == old(items) + [item]
    {
      items := items + [item];
    }

    /** `save_images_to_dynamodb(animal_type, image_urls)`: one `put_item` per
        URL, in order. `clock(i)` and `newId(i)` are the millisecond clock and
        the uuid read for the i-th write; `putFails(i)` says that the i-th
        `put_item` raised, which ends the loop and propagates (`failed`). */
    method SaveImages(animalType: string, imageURLs: seq<string>,
                      clock: nat -> nat, newId: nat -> string, putFails: nat -> bool)
      returns (saved: nat, failed: bool)
      modifies this
      ensures saved <= |imageURLs|
      ensures failed <==> saved < |imageURLs|
      ensures failed ==> putFails(saved)
      ensures forall i :: 0 <= i < saved ==> !putFails(i)
      ensures items == old(items) + Written(animalType, imageURLs[..saved], clock, newId)
    {
      saved := 0;
      while saved < |imageURLs|
        invariant saved <= |imageURLs|
        invariant forall i :: 0 <= i < saved ==> !putFails(i)
        invariant items == old(items) + Written(animalType, imageURLs[..saved], clock, newId)
      {
        if putFails(saved) {
          return saved, true;
        }
        var imageURL := imageURLs[saved];
        var item := NewItem(animalType, imageURL, clock(saved), newId(saved));
        assert imageURLs[..saved + 1][..saved] == imageURLs[..saved];
        PutItem(item);
        saved := saved + 1;
      }
      assert imageURLs[..saved] == imageURLs;
      failed := false;
    }
  }
}
