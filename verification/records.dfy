/**
 * The two persisted record types, List and Url, as the data-mapping client
 * hands them to the API handlers and the client store.
 */
module Records {
  import opened Wrappers

  /** A stored List: id assigned by the table, slug unique across lists, createdAt set once. */
  datatype ListRecord = ListRecord(
    id: nat,
    title: string,
    description: Option<string>,
    slug: string,
    createdAt: int)

  /** A stored Url bookmark, owned by the List whose id is `listId`. */
  datatype UrlRecord = UrlRecord(
    id: nat,
    url: string,
    title: Option<string>,
    description: Option<string>,
    image: Option<string>,
    listId: nat,
    createdAt: int)
}
