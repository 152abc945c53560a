/** The record the service stores, and the fixed-width integers of the Go platform it runs on. */
module Model {

  /** Go's `int`, taken as 64 bits wide. */
  type Int64 = x: int | -0x8000_0000_0000_0000 <= x <= 0x7FFF_FFFF_FFFF_FFFF

  /** Go's `uint64`, the type of a bucket's sequence number. */
  type Uint64 = x: int | 0 <= x <= 0xFFFF_FFFF_FFFF_FFFF

  const MaxInt64: Int64 := 0x7FFF_FFFF_FFFF_FFFF
  const MaxUint64: Uint64 := 0xFFFF_FFFF_FFFF_FFFF

  datatype Option<T> = None | Some(value: T)

  /** One todo entry: its identifier, its text and whether it is done. */
  datatype Item = Item(id: Int64, content: string, isCompleted: bool)

  /** The zero value of Item, which the gateway returns for "nothing there". */
  const ZeroItem: Item := Item(0, "", false)
}
