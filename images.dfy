/** `ImageImpl`: a mutable holder of an image id and a reference to its byte array. */
module Images {
  import opened Bytes

  class ImageImpl {
    var id: int
    var imageBytes: array?<byte>

    /** `ImageImpl(id2, bytes)`: keeps the very array it is given, not a copy. */
    constructor (id2: int, bytes: array?<byte>)
      ensures id == id2 && imageBytes == bytes
    {
      id := id2;
      imageBytes := bytes;
    }

    /** `ImageImpl()`: Java's default field values, 0 and `null`. */
    constructor Default()
      ensures id == 0 && imageBytes == null
    {
      id := 0;
      imageBytes := null;
    }

    method SetImageId(id: int)
      modifies this`id
      ensures this.id == id && imageBytes == old(imageBytes)
    {
      this.id := id;
    }

    method SetImageBytes(bytes: array?<byte>)
      modifies this`imageBytes
      ensures imageBytes == bytes && id == old(id)
    {
      imageBytes := bytes;
    }

    method GetImageId() returns (r: int)
      ensures r == id
    {
      r := id;
    }

    /** Returns the stored reference itself: the holder and the caller share the array. */
    method GetImageBytes() returns (r: array?<byte>)
      ensures r == imageBytes
    {
      r := imageBytes;
    }
  }

  /**
   * A write into the array after it was handed to the holder is seen through
   * `getImageBytes()`, because the holder keeps the reference.
   */
  method SharedBytesVisible(id: int, before: byte, after: byte) returns (seenId: int, seen: byte)
    ensures seenId == id && seen == after
  {
    var bytes := new byte[1](_ => before);
    var image := new ImageImpl(id, bytes);
    bytes[0] := after;
    var back := image.GetImageBytes();
    seenId := image.GetImageId();
    seen := back[0];
  }

  /**
   * Each setter changes its own field only: on two default holders, setting
   * the bytes then the id, or the id then the bytes, both getters return
   * what was set.
   */
  method SettersIndependent(id: int, bytes: array?<byte>)
    returns (gotId: int, gotBytes: array?<byte>, gotIdReversed: int, gotBytesReversed: array?<byte>)
    ensures gotId == id && gotBytes == bytes
    ensures gotIdReversed == id && gotBytesReversed == bytes
  {
    var image := new ImageImpl.Default();
    image.SetImageBytes(bytes);
    image.SetImageId(id);
    gotId := image.GetImageId();
    gotBytes := image.GetImageBytes();
    var reversed := new ImageImpl.Default();
    reversed.SetImageId(id);
    reversed.SetImageBytes(bytes);
    gotIdReversed := reversed.GetImageId();
    gotBytesReversed := reversed.GetImageBytes();
  }
}
