/**
 * From the API's answer to uniform book records: `process_book_data` and the
 * list comprehension over `items` in `get_book_recommendations`.
 *
 * The raw JSON is given an explicit schema: every key the code looks up is an
 * `Option`, `None` when the key is missing.
 */
module Books {
  import opened Wrappers

  /** The `imageLinks` object of a volume. */
  datatype ImageLinks = ImageLinks(thumbnail: Option<string>)

  /** The `volumeInfo` object of one result item, with the keys the code reads. */
  datatype VolumeInfo = VolumeInfo(
    title: Option<string>,
    authors: Option<seq<string>>,
    publisher: Option<string>,
    publishedDate: Option<string>,
    description: Option<string>,
    categories: Option<seq<string>>,
    imageLinks: Option<ImageLinks>,
    previewLink: Option<string>)

  /** One element of the response's `items` array. */
  datatype Item = Item(volumeInfo: Option<VolumeInfo>)

  /** The decoded JSON body of a successful search. */
  datatype Response = Response(items: Option<seq<Item>>)

  /** The fixed-shape record every item becomes. */
  datatype BookRecord = BookRecord(
    title: string,
    authors: seq<string>,
    publisher: string,
    publishedDate: string,
    description: string,
    categories: seq<string>,
    thumbnail: Option<string>,
    previewLink: Option<string>)

  // The placeholders substituted for missing fields.
  const NoTitle: string := "제목 없음"
  const UnknownAuthors: seq<string> := ["작자 미상"]
  const NoPublisher: string := "출판사 정보 없음"
  const NoDate: string := "날짜 정보 없음"
  const NoDescription: string := "설명 없음"
  const NoCategories: seq<string> := ["분류 없음"]

  /** The volume information with every key missing: the `{}` the code falls back to. */
  const EmptyVolumeInfo: VolumeInfo := VolumeInfo(None, None, None, None, None, None, None, None)

  /** The record made only of placeholders. */
  const DefaultRecord: BookRecord :=
    BookRecord(NoTitle, UnknownAuthors, NoPublisher, NoDate, NoDescription, NoCategories, None, None)

  /**
   * `process_book_data`: each field of the record is the item's value when
   * present and its placeholder when missing; the thumbnail and the preview link
   * are `None` when missing. An item without volume information gives the
   * record of placeholders.
   */
  function ProcessBookData(item: Item): (r: BookRecord)
    ensures item.volumeInfo.None? ==> r == DefaultRecord
    ensures r.thumbnail.Some? <==>
      item.volumeInfo.Some? && item.volumeInfo.value.imageLinks.Some? && item.volumeInfo.value.imageLinks.value.thumbnail.Some?
    ensures r.previewLink.Some? <==> item.volumeInfo.Some? && item.volumeInfo.value.previewLink.Some?
  {
    var info := item.volumeInfo.GetOr(EmptyVolumeInfo);
    BookRecord(
      info.title.GetOr(NoTitle),
      info.authors.GetOr(UnknownAuthors),
      info.publisher.GetOr(NoPublisher),
      info.publishedDate.GetOr(NoDate),
      info.description.GetOr(NoDescription),
      info.categories.GetOr(NoCategories),
      info.imageLinks.GetOr(ImageLinks(None)).thumbnail,
      info.previewLink)
  }

  /** A field that is present is copied unchanged into the record. */
  lemma PresentFieldsCopied(item: Item)
    requires item.volumeInfo.Some?
    ensures var info, r := item.volumeInfo.value, ProcessBookData(item);
      && (info.title.Some? ==> r.title == info.title.value)
      && (info.authors.Some? ==> r.authors == info.authors.value)
      && (info.publisher.Some? ==> r.publisher == info.publisher.value)
      && (info.publishedDate.Some? ==> r.publishedDate == info.publishedDate.value)
      && (info.description.Some? ==> r.description == info.description.value)
      && (info.categories.Some? ==> r.categories == info.categories.value)
      && (info.imageLinks.Some? ==> r.thumbnail == info.imageLinks.value.thumbnail)
      && r.previewLink == info.previewLink
  {
  }

  /** A field that is missing gets its placeholder, or `None` for the two links. */
  lemma MissingFieldsDefaulted(item: Item)
    ensures var info, r := item.volumeInfo.GetOr(EmptyVolumeInfo), ProcessBookData(item);
      && (info.title.None? ==> r.title == NoTitle)
      && (info.authors.None? ==> r.authors == UnknownAuthors)
      && (info.publisher.None? ==> r.publisher == NoPublisher)
      && (info.publishedDate.None? ==> r.publishedDate == NoDate)
      && (info.description.None? ==> r.description == NoDescription)
      && (info.categories.None? ==> r.categories == NoCategories)
      && (info.imageLinks.None? ==> r.thumbnail == None)
      && (info.previewLink.None? ==> r.previewLink == None)
  {
  }

  /** A missing `volumeInfo` and an empty one give the same record. */
  lemma MissingVolumeInfoIsEmpty()
    ensures ProcessBookData(Item(None)) == ProcessBookData(Item(Some(EmptyVolumeInfo))) == DefaultRecord
  {
  }

  /** The item whose every field holds the record's value: the inverse of `ProcessBookData`. */
  function RawItem(r: BookRecord): Item
  {
    Item(Some(VolumeInfo(
      Some(r.title), Some(r.authors), Some(r.publisher), Some(r.publishedDate),
      Some(r.description), Some(r.categories),
      if r.thumbnail.Some? then Some(ImageLinks(r.thumbnail)) else None,
      r.previewLink)))
  }

  /**
   * An item that carries all six text fields, and a thumbnail whenever it
   * carries `imageLinks`: the items `ProcessBookData` loses nothing of.
   */
  predicate IsComplete(item: Item)
  {
    && item.volumeInfo.Some?
    && var info := item.volumeInfo.value;
    && info.title.Some? && info.authors.Some? && info.publisher.Some?
    && info.publishedDate.Some? && info.description.Some? && info.categories.Some?
    && (info.imageLinks.Some? ==> info.imageLinks.value.thumbnail.Some?)
  }

  /** Every record comes back unchanged from the item built from it. */
  lemma ProcessRawItem(r: BookRecord)
    ensures IsComplete(RawItem(r))
    ensures ProcessBookData(RawItem(r)) == r
  {
  }

  /** A complete item is rebuilt exactly from its record, so no field is altered. */
  lemma RawItemOfComplete(item: Item)
    requires IsComplete(item)
    ensures RawItem(ProcessBookData(item)) == item
  {
  }

  /** `[process_book_data(item) for item in items]`: one record per item, in order. */
  function MapRecords(items: seq<Item>): (rs: seq<BookRecord>)
    ensures |rs| == |items|
    ensures forall k :: 0 <= k < |items| ==> rs[k] == ProcessBookData(items[k])
  {
    if items == [] then [] else [ProcessBookData(items[0])] + MapRecords(items[1..])
  }

  /** Mapping respects concatenation: no reordering, merging or dropping across a split. */
  lemma MapRecordsAppend(a: seq<Item>, b: seq<Item>)
    ensures MapRecords(a + b) == MapRecords(a) + MapRecords(b)
  {
    var l, r := MapRecords(a + b), MapRecords(a) + MapRecords(b);
    forall k | 0 <= k < |a + b| ensures l[k] == r[k] {
      if k < |a| {
        assert (a + b)[k] == a[k];
      } else {
        assert (a + b)[k] == b[k - |a|];
      }
    }
  }

  /**
   * The records shown for a fetch outcome: none when the fetch failed or the
   * answer has no `items`, otherwise one per item in the order of the answer.
   */
  function Recommendations(response: Option<Response>): (rs: seq<BookRecord>)
    ensures response.None? || response.value.items.None? ==> rs == []
    ensures response.Some? && response.value.items.Some? ==>
      var items := response.value.items.value;
      |rs| == |items| && forall k :: 0 <= k < |items| ==> rs[k] == ProcessBookData(items[k])
  {
    match response
    case None => []
    case Some(answer) =>
      match answer.items
      case None => []
      case Some(items) => MapRecords(items)
  }

  /** An answer whose `items` list is empty gives no records, like a missing one. */
  lemma EmptyItemsGiveNothing()
    ensures Recommendations(Some(Response(Some([])))) == []
  {
  }
}
