/** The Windows rename record written by local/rename_information.go, and a reader for it. */
module RenameBuffer {
  import opened Common

  const NAME_CAPACITY := 260

  type CodeUnit = u: int | 0 <= u < 0x1_0000

  /** What the record carries: the target directory's handle and the new name, without its terminator. */
  datatype Information = Information(directory: nat, name: seq<CodeUnit>)

  function Power256(n: nat): nat { if n == 0 then 1 else 256 * Power256(n - 1) }

  /** The number written in little-endian bytes. */
  function Number(bytes: seq<Byte>): nat {
    if bytes == [] then 0 else bytes[0] as int + 256 * Number(bytes[1..])
  }

  function CodeUnitAt(bytes: seq<Byte>, offset: nat): CodeUnit
    requires offset + 2 <= |bytes|
  {
    bytes[offset] as int + 256 * bytes[offset + 1] as int
  }

  /** How the record is read: a pointer-sized handle, a 32-bit length in bytes, then the name. */
  function Decode(bytes: seq<Byte>, pointerBytes: nat): Option<Information> {
    var header := 2 * pointerBytes + 4;
    if |bytes| < header then None
    else
      var length := Number(bytes[2 * pointerBytes..header]);
      if length % 2 != 0 || |bytes| < header + length then None
      else
        Some(Information(Number(bytes[pointerBytes..2 * pointerBytes]),
                         seq(length / 2, i requires 0 <= i < length / 2 => CodeUnitAt(bytes, header + 2 * i))))
  }

  /** The inputs the record cannot carry. */
  predicate Refused(pointerBytes: int, directory: nat, filename: seq<CodeUnit>) {
    || (pointerBytes != 4 && pointerBytes != 8)
    || filename == [] || |filename| > NAME_CAPACITY || filename[|filename| - 1] != 0
    || (pointerBytes == 4 && directory > 0xFFFF_FFFF)
  }

  method PutNumber(bytes: array<Byte>, offset: nat, width: nat, value: nat)
    requires offset + width <= bytes.Length && value < Power256(width)
    modifies bytes
    ensures Number(bytes[offset..offset + width]) == value
    ensures forall k :: 0 <= k < bytes.Length && !(offset <= k < offset + width) ==> bytes[k] == old(bytes[k])
    decreases width
  {
    if width > 0 {
      PutNumber(bytes, offset + 1, width - 1, value / 256);
      ghost var upper := bytes[offset + 1..offset + width];
      bytes[offset] := (value % 256) as Byte;
      assert bytes[offset..offset + width][1..] == upper;
    }
  }

  /** The length rounded up to the pointer alignment; masking off the low bits rounds down. */
  function RecordSize(pointerBytes: nat): (size: nat)
    requires pointerBytes == 4 || pointerBytes == 8
    ensures size % pointerBytes == 0
    ensures 0 <= size - (2 * pointerBytes + 4 + 2 * NAME_CAPACITY) < pointerBytes
    ensures size == if pointerBytes == 4 then 532 else 544
  {
    var unaligned := 2 * pointerBytes + 4 + 2 * NAME_CAPACITY + pointerBytes - 1;
    unaligned - unaligned % pointerBytes
  }

  /** Everything before the handle, and everything after the name, is zero. */
  ghost predicate PaddingIsZero(bytes: seq<Byte>, pointerBytes: nat, units: nat) {
    forall k :: 0 <= k < |bytes| && !(pointerBytes <= k < 2 * pointerBytes + 4 + 2 * units) ==> bytes[k] == 0
  }

  ghost predicate HoldsUnits(bytes: seq<Byte>, header: nat, filename: seq<CodeUnit>, n: nat)
    requires header + 2 * n <= |bytes| && n <= |filename|
  {
    forall i :: 0 <= i < n ==> CodeUnitAt(bytes, header + 2 * i) == filename[i]
  }

  /** Little-endian widths: 32 bits hold every length and short handle, 64 bits every handle. */
  lemma Widths()
    ensures Power256(2) == 0x1_0000
    ensures Power256(4) == 0x1_0000_0000
    ensures Power256(8) == 0x1_0000_0000_0000_0000
  {
    assert Power256(3) == 256 * Power256(2);
    assert Power256(5) == 256 * Power256(4);
    assert Power256(6) == 256 * Power256(5);
    assert Power256(7) == 256 * Power256(6);
  }

  lemma TwoBytes(bytes: seq<Byte>, offset: nat)
    requires offset + 2 <= |bytes|
    ensures Number(bytes[offset..offset + 2]) == CodeUnitAt(bytes, offset)
  {
    var pair := bytes[offset..offset + 2];
    assert pair[1..][1..] == [];
    assert Number(pair[1..]) == pair[1] as int;
  }

  /** The name and its terminator, unit by unit. */
  method PutName(bytes: array<Byte>, header: nat, filename: seq<CodeUnit>)
    requires header + 2 * |filename| <= bytes.Length
    modifies bytes
    ensures HoldsUnits(bytes[..], header, filename, |filename|)
    ensures forall k :: 0 <= k < bytes.Length && !(header <= k < header + 2 * |filename|) ==> bytes[k] == old(bytes[k])
  {
    var index := 0;
    while index < |filename|
      invariant index <= |filename|
      invariant HoldsUnits(bytes[..], header, filename, index)
      invariant forall k :: 0 <= k < bytes.Length && !(header <= k < header + 2 * index) ==> bytes[k] == old(bytes[k])
    {
      var offset := header + 2 * index;
      ghost var before := bytes[..];
      Widths();
      PutNumber(bytes, offset, 2, filename[index]);
      assert bytes[..][offset..offset + 2] == bytes[offset..offset + 2];
      TwoBytes(bytes[..], offset);
      forall i | 0 <= i < index ensures CodeUnitAt(bytes[..], header + 2 * i) == filename[i] {
        assert CodeUnitAt(before, header + 2 * i) == filename[i];
      }
      index := index + 1;
    }
  }

  /**
    The record, or null exactly for the refused inputs. Reading it back gives the handle and the name;
    the terminator and every byte outside the fields are zero.
   */
  method Marshal(pointerBytes: int, directory: nat, filename: seq<CodeUnit>) returns (information: array?<Byte>)
    requires directory <= 0xFFFF_FFFF_FFFF_FFFF
    ensures information == null <==> Refused(pointerBytes, directory, filename)
    ensures information != null ==>
              && information.Length == RecordSize(pointerBytes)
              && Decode(information[..], pointerBytes) == Some(Information(directory, filename[..|filename| - 1]))
              && PaddingIsZero(information[..], pointerBytes, |filename| - 1)
  {
    if pointerBytes != 4 && pointerBytes != 8 {
      return null;
    }
    var filenameLength := |filename| - 1;
    if filenameLength < 0 || filenameLength >= NAME_CAPACITY || filename[filenameLength] != 0 {
      return null;
    }
    var bytes := new Byte[RecordSize(pointerBytes)](_ => 0);
    if pointerBytes == 4 && directory > 0xFFFF_FFFF {
      return null;
    }
    Fill(bytes, pointerBytes, directory, filename);
    information := bytes;
  }

  /** The three fields, written into a zeroed record. */
  method Fill(bytes: array<Byte>, pointerBytes: nat, directory: nat, filename: seq<CodeUnit>)
    requires (pointerBytes == 4 && directory <= 0xFFFF_FFFF)
             || (pointerBytes == 8 && directory <= 0xFFFF_FFFF_FFFF_FFFF)
    requires 0 < |filename| <= NAME_CAPACITY && filename[|filename| - 1] == 0
    requires bytes.Length == RecordSize(pointerBytes) && forall k :: 0 <= k < bytes.Length ==> bytes[k] == 0
    modifies bytes
    ensures Decode(bytes[..], pointerBytes) == Some(Information(directory, filename[..|filename| - 1]))
    ensures PaddingIsZero(bytes[..], pointerBytes, |filename| - 1)
  {
    var filenameLength := |filename| - 1;
    var lengthOffset := 2 * pointerBytes;
    var filenameOffset := lengthOffset + 4;
    Widths();
    PutNumber(bytes, pointerBytes, pointerBytes, directory);
    ghost var first := bytes[..];
    assert first[pointerBytes..lengthOffset] == bytes[pointerBytes..lengthOffset];
    PutNumber(bytes, lengthOffset, 4, filenameLength * 2);
    ghost var second := bytes[..];
    assert second[lengthOffset..filenameOffset] == bytes[lengthOffset..filenameOffset];
    SameSlice(first, second, pointerBytes, lengthOffset);
    PutName(bytes, filenameOffset, filename);
    SameSlice(second, bytes[..], pointerBytes, lengthOffset);
    SameSlice(second, bytes[..], lengthOffset, filenameOffset);
    assert PaddingIsZero(bytes[..], pointerBytes, |filename|);
    DecodesBack(bytes[..], pointerBytes, directory, filename);
  }

  lemma SameSlice<T>(a: seq<T>, b: seq<T>, low: nat, high: nat)
    requires low <= high <= |a| == |b| && forall k :: low <= k < high ==> a[k] == b[k]
    ensures a[low..high] == b[low..high]
  {}

  lemma DecodesBack(bytes: seq<Byte>, pointerBytes: nat, directory: nat, filename: seq<CodeUnit>)
    requires filename != [] && 2 * pointerBytes + 4 + 2 * |filename| <= |bytes|
    requires Number(bytes[pointerBytes..2 * pointerBytes]) == directory
    requires Number(bytes[2 * pointerBytes..2 * pointerBytes + 4]) == 2 * (|filename| - 1)
    requires HoldsUnits(bytes, 2 * pointerBytes + 4, filename, |filename|)
    ensures Decode(bytes, pointerBytes) == Some(Information(directory, filename[..|filename| - 1]))
    ensures PaddingIsZero(bytes, pointerBytes, |filename|) && filename[|filename| - 1] == 0 ==>
              PaddingIsZero(bytes, pointerBytes, |filename| - 1)
  {
    var terminator := 2 * pointerBytes + 4 + 2 * (|filename| - 1);
    assert CodeUnitAt(bytes, terminator) == filename[|filename| - 1];
    assert filename[|filename| - 1] == 0 ==> bytes[terminator] == 0 && bytes[terminator + 1] == 0;
    assert Decode(bytes, pointerBytes).value.name == filename[..|filename| - 1];
  }
}
