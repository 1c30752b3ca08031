/**
 * The binary form of agtype that AgtypeConverter reads and writes: one
 * version byte, 1, followed by the UTF-8 bytes of the text. The driver's
 * PgWriter and PgReader are modelled as a byte array with a cursor.
 */
module AgtypeConverter {
  import opened Wrappers
  import opened Utf8
  import opened AgeValues

  /** The wire formats a converter can be asked about. */
  datatype DataFormat = Binary | Text

  /** BufferRequirements: NoRequirements stands for BufferRequirements.None. */
  datatype BufferRequirements = NoRequirements | Requirements(read: nat, write: nat)

  /** Why a read fails: the field ended, or the version byte is not 1 (NotSupportedException). */
  datatype ReadError = EndOfField | UnsupportedVersion(version: byte)

  const Version: byte := 1

  /** CanConvert: both formats are accepted, with no buffer requirements. */
  function CanConvert(format: DataFormat): (r: (bool, BufferRequirements))
    ensures r.0 && r.1 == NoRequirements
  {
    (format == Text || format == Binary, NoRequirements)
  }

  /** The bytes WriteCore produces for a value. */
  function EncodeAgtype(value: Agtype): seq<byte> {
    [Version] + Encode(value.text)
  }

  /** What ReadCore makes of the bytes of one field. */
  function DecodeAgtype(field: seq<byte>): Result<Agtype, ReadError> {
    if field == [] then Failure(EndOfField)
    else if field[0] != Version then Failure(UnsupportedVersion(field[0]))
    else Success(Agtype(Decode(field[1..])))
  }

  /** GetSize: the UTF-8 byte count of the text plus one byte for the version. */
  function GetSize(value: Agtype): (size: nat)
    ensures |value.text| + 1 <= size <= 4 * |value.text| + 1
  {
    ByteCountBounds(value.text);
    ByteCount(value.text) + 1
  }

  /** The version byte comes first, and the size GetSize announces is the size written. */
  lemma EncodingShape(value: Agtype)
    ensures EncodeAgtype(value)[0] == Version
    ensures |EncodeAgtype(value)| == GetSize(value)
    ensures EncodeAgtype(value)[1..] == Encode(value.text)
  {
  }

  /** Reading back what was written gives the same text. */
  lemma EnvelopeRoundTrip(value: Agtype)
    ensures DecodeAgtype(EncodeAgtype(value)) == Success(value)
  {
    var bytes := EncodeAgtype(value);
    assert bytes[1..] == Encode(value.text);
    DecodeEncode(value.text);
  }

  /** A field whose first byte is not 1 is refused, whatever follows. */
  lemma OtherVersionsRefused(field: seq<byte>)
    requires field != [] && field[0] != Version
    ensures DecodeAgtype(field).Failure? && DecodeAgtype(field).error == UnsupportedVersion(field[0])
  {
  }

  /** PgWriter: an output buffer of fixed capacity and the position of the next byte. */
  class PgWriter {
    var buffer: array<byte>
    var pos: nat

    ghost predicate Valid()
      reads this
    {
      pos <= buffer.Length
    }

    /** The bytes written so far. */
    function Written(): seq<byte>
      reads this, buffer
      requires Valid()
    {
      buffer[..pos]
    }

    /** The room left in the buffer. */
    function Space(): nat
      reads this
      requires Valid()
    {
      buffer.Length - pos
    }

    constructor (capacity: nat)
      ensures Valid() && Written() == [] && Space() == capacity
      ensures fresh(buffer)
    {
      buffer := new byte[capacity];
      pos := 0;
    }

    method WriteByte(b: byte)
      requires Valid() && Space() >= 1
      modifies this, buffer
      ensures Valid() && buffer == old(buffer)
      ensures Written() == old(Written()) + [b]
      ensures Space() == old(Space()) - 1
    {
      buffer[pos] := b;
      pos := pos + 1;
    }

    method WriteBytes(bytes: seq<byte>)
      requires Valid() && |bytes| <= Space()
      modifies this, buffer
      ensures Valid() && buffer == old(buffer)
      ensures Written() == old(Written()) + bytes
      ensures Space() == old(Space()) - |bytes|
    {
      for i := 0 to |bytes|
        invariant Valid() && buffer == old(buffer)
        invariant pos == old(pos) + i
        invariant Written() == old(Written()) + bytes[..i]
      {
        buffer[pos] := bytes[i];
        pos := pos + 1;
        assert bytes[..i + 1] == bytes[..i] + [bytes[i]];
      }
    }
  }

  /** PgReader: the bytes of the current field and the position of the next byte to read. */
  class PgReader {
    var buffer: array<byte>
    var pos: nat
    var end: nat

    ghost predicate Valid()
      reads this
    {
      pos <= end <= buffer.Length
    }

    /** CurrentRemaining: how many bytes of the field are left. */
    function CurrentRemaining(): nat
      reads this
      requires Valid()
    {
      end - pos
    }

    /** The bytes of the field not read yet. */
    function Unread(): seq<byte>
      reads this, buffer
      requires Valid()
    {
      buffer[pos..end]
    }

    constructor (field: seq<byte>)
      ensures Valid() && Unread() == field
    {
      var data := new byte[|field|](i requires 0 <= i < |field| => field[i]);
      assert data[..] == field;
      buffer := data;
      pos := 0;
      end := |field|;
    }

    /** ReadByte; reading past the end of the field fails. */
    method ReadByte() returns (r: Result<byte, ReadError>)
      requires Valid()
      modifies this
      ensures Valid() && buffer == old(buffer) && end == old(end)
      ensures old(CurrentRemaining()) == 0 ==> r == Failure(EndOfField) && pos == old(pos)
      ensures old(CurrentRemaining()) > 0 ==>
                r == Success(old(Unread())[0]) && Unread() == old(Unread())[1..]
    {
      if pos == end {
        return Failure(EndOfField);
      }
      r := Success(buffer[pos]);
      pos := pos + 1;
    }

    /** ReadBytes(count) for a count within the field. */
    method ReadBytes(count: nat) returns (bytes: seq<byte>)
      requires Valid() && count <= CurrentRemaining()
      modifies this
      ensures Valid() && buffer == old(buffer) && end == old(end)
      ensures bytes == old(Unread())[..count]
      ensures Unread() == old(Unread())[count..]
    {
      bytes := buffer[pos..pos + count];
      pos := pos + count;
    }
  }

  /** WriteCore: the version byte, then the UTF-8 bytes of the text, in a buffer with room for GetSize bytes. */
  method WriteCore(writer: PgWriter, value: Agtype)
    requires writer.Valid() && writer.Space() >= GetSize(value)
    modifies writer, writer.buffer
    ensures writer.Valid() && writer.buffer == old(writer.buffer)
    ensures writer.Written() == old(writer.Written()) + EncodeAgtype(value)
  {
    writer.WriteByte(Version);
    var bytes := Encode(value.text);
    writer.WriteBytes(bytes);
  }

  /** ReadCore: checks the version byte, then decodes every byte left in the field. */
  method ReadCore(reader: PgReader) returns (r: Result<Agtype, ReadError>)
    requires reader.Valid()
    modifies reader
    ensures reader.Valid()
    ensures r == DecodeAgtype(old(reader.Unread()))
    ensures r.Success? ==> reader.CurrentRemaining() == 0
  {
    var field := reader.Unread();
    var version := reader.ReadByte();
    if version.Failure? {
      return Failure(version.error);
    }
    if version.value != Version {
      return Failure(UnsupportedVersion(version.value));
    }
    var textBytes := reader.ReadBytes(reader.CurrentRemaining());
    assert textBytes == field[1..];
    var text := Decode(textBytes);
    return Success(Agtype(text));
  }

  /** A value written by WriteCore into a buffer of GetSize bytes is read back unchanged by ReadCore. */
  method WriteThenRead(value: Agtype) returns (r: Result<Agtype, ReadError>)
    ensures r == Success(value)
  {
    var writer := new PgWriter(GetSize(value));
    EncodingShape(value);
    WriteCore(writer, value);
    assert writer.Written() == EncodeAgtype(value);
    var reader := new PgReader(writer.Written());
    r := ReadCore(reader);
    EnvelopeRoundTrip(value);
  }
}
