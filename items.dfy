/**
 * The item record and its serialisation, as the store engine sees them.
 * The item type and the helpers `casBytes`, `toValueBytes` and `fromValueBytes`
 * are defined outside the store; the model takes them as the fields of a
 * `Codec` value, so nothing is assumed about their encoding.
 */
module Items {
  import opened ByteOrder

  type U16 = x: int | 0 <= x < 0x1_0000
  type U32 = x: int | 0 <= x < 0x1_0000_0000
  type U64 = x: int | 0 <= x < 0x1_0000_0000_0000_0000

  datatype Option<T> = None | Some(value: T)

  /** Why an operation failed: the collection layer reported an error, or a stored payload would not decode. */
  datatype Error = CollectionError | DecodeError

  /** A key/value record with its metadata; an empty key marks a metadata-only change. */
  datatype Item = Item(key: Bytes, flags: U32, exp: U32, cas: U64, data: Bytes)

  /** The zero item, `&item{}`. */
  const EmptyItem := Item([], 0, 0, 0, [])

  /**
   * The serialisation helpers. `fromValueBytes` fills in a receiver that may already
   * carry a key (as `&item{key: key}` does), and fails on a malformed payload.
   */
  datatype Codec = Codec(
    casBytes: U64 -> Bytes,
    toValueBytes: Item -> Bytes,
    fromValueBytes: (Item, Bytes) -> Option<Item>)

  /** A codec whose decoding never replaces the key already set on the receiver. */
  ghost predicate KeepsKey(codec: Codec) {
    forall i: Item, b: Bytes :: codec.fromValueBytes(i, b).Some? ==> codec.fromValueBytes(i, b).value.key == i.key
  }
}
