/** The mutable value holders the vector reads from and writes into. */
module Holders {
  import opened JavaTypes

  /** `NullableBigIntHolder`: a long together with a flag saying whether it is
      set (positive), null (zero), or malformed (negative). */
  class NullableBigIntHolder {
    var isSet: int
    var value: Long

    constructor ()
      ensures isSet == 0 && value == 0
    {
      isSet, value := 0, 0;
    }
  }

  /** `BigIntHolder`: a long that is always set. */
  class BigIntHolder {
    var value: Long

    constructor (value: Long)
      ensures this.value == value
    {
      this.value := value;
    }
  }
}
