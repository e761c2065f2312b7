/**
 * The `bytes` crate's `Bytes`, a cheaply cloneable, reference-counted,
 * immutable byte buffer. The model keeps only what a holder can observe:
 * the bytes themselves. Sharing and reference counts are not modelled, so a
 * clone is a copy of the value.
 */
module SharedBytes {
  import opened Utf8

  datatype Bytes = Bytes(data: seq<byte>) {

    /** `Bytes::new()`: an empty buffer. */
    static function New(): Bytes {
      Bytes([])
    }

    /** `Bytes::from(Vec<u8>)`: takes over the vector's bytes. */
    static function FromVec(v: seq<byte>): Bytes {
      Bytes(v)
    }

    /** `Bytes::from(&[u8])`: copies the slice into a new buffer. */
    static function CopyFromSlice(s: seq<byte>): Bytes {
      Bytes(s)
    }

    /** `<Bytes as AsRef<[u8]>>::as_ref`: the bytes the buffer holds. */
    function AsRef(): seq<byte> {
      data
    }
  }
}
