/**
 The value that a cJSON tree denotes: the fields of each node other than the
 links, and its children in order.
 */
module Items {
  import opened Bytes

  const NESTING_LIMIT: nat := 1000
  const CIRCULAR_LIMIT: nat := 10000

  datatype Kind = Invalid | False | True | Null | Number | String | Array | Object | Raw

  /** `text` is `valuestring`, `name` is `string` (the key), `kids` the list under `child`. */
  datatype Item = Item(kind: Kind, num: real, text: CString, name: CString, kids: seq<Item>)

  /** What `cJSON_New_Item` zeroes. */
  const BLANK: Item := Item(Invalid, 0.0, NoString, NoString, [])
}
