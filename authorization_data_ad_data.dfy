/**
 * The grammar action that stores the `ad-data [1] OCTET STRING` field of an
 * AuthorizationData entry (section 5.2.6 of RFC 4120) while a Kerberos
 * message is decoded. The action checks the TLV the decoder has just read,
 * copies its value bytes into the current AuthorizationData entry and marks
 * the point as a legal end of the structure.
 */
module AuthorizationDataAdData {
  import opened Wrappers

  newtype byte = b: int | 0 <= b < 256

  /** Why the action raised a DecoderException (the source uses one message for both). */
  datatype DecodeError =
    | EmptyValueNotAllowed  // the TLV's length is 0
    | MissingValueBytes     // the TLV has no value bytes

  datatype ActionResult = Stored | DecoderException(error: DecodeError)

  /**
   * The parts of the AuthorizationData decoding container the action uses:
   * the current TLV (its length and its value bytes, if any), the ad-data of
   * the AuthorizationData entry being decoded, and the grammar-end-allowed
   * flag.
   */
  class AuthorizationDataContainer {
    var curLength: nat
    var curData: Option<seq<byte>>
    var adData: Option<seq<byte>>
    var endAllowed: bool

    /** A container whose current TLV has the given length and value bytes. */
    constructor (length: nat, data: Option<seq<byte>>)
      ensures curLength == length && curData == data
      ensures adData == None && !endAllowed
    {
      curLength := length;
      curData := data;
      adData := None;
      endAllowed := false;
    }
  }

  /**
   * The action: a zero-length TLV is refused first, then a TLV without value
   * bytes; only then is the ad-data stored and the end allowed, so a refused
   * TLV leaves the container as it was.
   */
  method Action(container: AuthorizationDataContainer) returns (result: ActionResult)
    modifies container`adData, container`endAllowed
    ensures container.curLength == 0 ==> result == DecoderException(EmptyValueNotAllowed)
    ensures container.curLength != 0 && container.curData.None? ==> result == DecoderException(MissingValueBytes)
    ensures result.Stored? <==> container.curLength != 0 && container.curData.Some?
    ensures result.Stored? ==> container.adData == container.curData && container.endAllowed
    ensures result.DecoderException? ==> unchanged(container)
  {
    if container.curLength == 0 {
      return DecoderException(EmptyValueNotAllowed);
    }
    var value := container.curData;
    if value.None? {
      return DecoderException(MissingValueBytes);
    }
    container.adData := value;
    container.endAllowed := true;
    return Stored;
  }

  /**
   * The action on a fresh container: an octet string carrying the single byte
   * 0x05 is stored as the ad-data, while a zero-length one is refused and
   * stores nothing.
   */
  method ActionScenarios() returns (stored: Option<seq<byte>>, refused: ActionResult)
    ensures stored == Some([5])
    ensures refused == DecoderException(EmptyValueNotAllowed)
  {
    var c := new AuthorizationDataContainer(1, Some([5]));
    var r := Action(c);
    assert r == Stored;
    stored := c.adData;
    var empty := new AuthorizationDataContainer(0, Some([]));
    refused := Action(empty);
    assert empty.adData == None && !empty.endAllowed;
  }
}
