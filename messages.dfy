/** The outcomes the comparators report. The source returns "" on success
    and a formatted message otherwise; each message is represented here by a
    constructor that carries the names, indices and keys the text shows. */
module Messages {
  import opened Wrappers
  import opened Reflect

  /** The name of the slice a data error is found in. */
  datatype Side = Expected | Actual

  /** What canGetKey reports about an element type. */
  datatype KeyTypeError =
    | FieldMissing(key: string, similar: Option<string>)  // "Key `key` not found in struct (but it has `similar`)"
    | Unsupported                                         // "Both must be slice of struct, *struct, map or interface"

  datatype Message =
    | Ok                                                  // ""
    | ArgCount(provided: nat)                             // "This assertion requires exactly 1 comparison values ..."
    | NotSlice                                            // "Both must be slice"
    | BadElemType(reason: KeyTypeError)
    | LengthNotEqual                                      // "Length not equal"
    | NotMatch                                            // "Not match N item(s)", N from the differ
    | SlicesNotEqual                                      // "Slices are not equal"
    | NilItem(side: Side, index: nat)                     // "All items must not be nil (side[index] is nil)"
    | NoKey(side: Side, index: nat)                       // "Could not get key from side[index]"
    | NilKey(side: Side, index: nat, key: string)         // "All item keys must not be nil (side[index].key is nil)"
    | NotComparable(side: Side, index: nat, key: string, keyValue: Value)
    | Duplicate(side: Side, prev: nat, index: nat, keyValue: Value)
    | NotFound(key: string, keyValue: Value)              // "Expected item with key=`keyValue` but not found"
    | Different(key: string, keyValue: Value)             // "Item with key=`keyValue` is different: ..."
  {
    /** The five per-item errors of the indexing pass. */
    predicate IsItemError() {
      NilItem? || NoKey? || NilKey? || NotComparable? || Duplicate?
    }
  }
}
