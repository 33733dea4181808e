/** String descriptors: the device's UTF-16LE encoder and the host's decoder. */
module StringDescriptor {
  import opened MachineWords
  import opened UsbDefs
  import opened Wrappers

  const STRING: byte := 3       // USB_DESCRIPTOR_TYPE_STRING

  /** A C string without its terminator. */
  ghost predicate NulFree(s: seq<byte>) {
    forall c :: c in s ==> c != 0
  }

  /** The descriptor of an accepted string: the length byte is the total length modulo 256. */
  ghost function Encode(s: seq<byte>): (d: seq<byte>)
    ensures |d| == 2 * |s| + 2
  {
    [(2 * |s| + 2) % 0x100, STRING] + seq(2 * |s|, i requires 0 <= i < 2 * |s| => if i % 2 == 0 then s[i / 2] else 0)
  }

  lemma EncodeAt(s: seq<byte>, i: nat)
    requires i < |s|
    ensures Encode(s)[2 * i + 2] == s[i] && Encode(s)[2 * i + 3] == 0
  {
  }

  /** The layout of a string descriptor: its length, type 3, and each character as a 16-bit unit, low byte first. */
  lemma EncodedBytes(s: seq<byte>, i: nat)
    requires i < |s|
    ensures var d := Encode(s);
      d[0] == (2 * |s| + 2) % 256 && d[1] == 3 && d[2 * i + 2] == s[i] && d[2 * i + 3] == 0
  {
    EncodeAt(s, i);
  }

  /** How many characters the decoder takes from a descriptor with this length byte. */
  function DecodedCount(length: byte): nat {
    if length < 2 then 0 else (length - 1) / 2
  }

  /** The low bytes of the characters in a descriptor. */
  ghost function Decode(d: seq<byte>): (s: seq<byte>)
    requires |d| >= 1 && |d| >= d[0]
  {
    seq(DecodedCount(d[0]), j requires 0 <= j < DecodedCount(d[0]) => d[2 * j + 2])
  }

  /** strlen(s) as the source keeps it, in 16 bits. */
  function StrSize(s: seq<byte>): nat {
    |s| % 0x1_0000
  }

  /** total_size, in 16 bits. */
  function TotalSize(s: seq<byte>): nat {
    (2 * StrSize(s) + 2) % 0x1_0000
  }

  predicate Accepted(s: seq<byte>) {
    TotalSize(s) <= REQUEST_BUFFER_LEN
  }

  /** The string case of usbd_get_descriptor, for a string other than the language table: the length offered.
      `memory` starts with the request buffer; what lies behind it is as long as the writes may reach. */
  method GetStringDescriptor(s: seq<byte>, memory: array<byte>) returns (len: Option<nat>)
    requires NulFree(s) && memory.Length >= REQUEST_BUFFER_LEN
    requires Accepted(s) ==> memory.Length >= 2 * StrSize(s) + 2
    modifies memory
    ensures len == if Accepted(s) then Some(TotalSize(s)) else None
    ensures Accepted(s) ==>
      var d := Encode(s[..StrSize(s)]); memory[..] == d + old(memory[|d|..])
    ensures !Accepted(s) ==> memory[..] == old(memory[..])
  {
    var strSize := |s| % 0x1_0000;
    var totalSize := (2 * strSize + 2) % 0x1_0000;
    if totalSize > REQUEST_BUFFER_LEN {
      return None;
    }
    memory[0] := totalSize % 0x100;
    memory[1] := STRING;
    FillUnits(s[..strSize], memory);
    len := Some(totalSize);
  }

  /** The loop that stores one UTF-16 unit for each character. */
  method FillUnits(s: seq<byte>, memory: array<byte>)
    requires memory.Length >= 2 * |s| + 2 && memory[0] == Encode(s)[0] && memory[1] == STRING
    modifies memory
    ensures memory[..] == Encode(s) + old(memory[2 * |s| + 2..])
  {
    ghost var d := Encode(s);
    for i := 0 to |s|
      invariant forall j :: 0 <= j < 2 * i + 2 ==> memory[j] == d[j]
      invariant memory[|d|..] == old(memory[|d|..])
    {
      memory[2 * i + 2] := s[i];
      memory[2 * i + 3] := 0x00;
      EncodeAt(s, i);
    }
    assert memory[..|d|] == d;
    assert memory[..] == memory[..|d|] + memory[|d|..];
  }

  /** A string is accepted iff its 16-bit length is at most 255, or so large that its total size wraps to at most
      512. The wrapped ones write past the request buffer, and only they do. */
  lemma EncoderOverrunsExactly(s: seq<byte>)
    ensures Accepted(s) <==> StrSize(s) <= 255 || 32767 <= StrSize(s) <= 33023 || StrSize(s) == 65535
    ensures Accepted(s) ==> (|Encode(s[..StrSize(s)])| <= 512 <==> StrSize(s) <= 255)
    ensures |s| <= 255 ==> Accepted(s) && TotalSize(s) == 2 * |s| + 2 && s[..StrSize(s)] == s
  {
    var n := 2 * StrSize(s) + 2;
    assert TotalSize(s) == if n < 0x1_0000 then n else if n < 0x2_0000 then n - 0x1_0000 else n - 0x2_0000;
  }

  /** A string of 32767 characters is accepted with a total size of 0, and 65536 bytes are written. */
  lemma EncoderOverrunExample()
    ensures var s: seq<byte> := seq(32767, _ => 'a' as byte);
      NulFree(s) && Accepted(s) && TotalSize(s) == 0 && |Encode(s[..StrSize(s)])| == 65536
  {
    var s: seq<byte> := seq(32767, _ => 'a' as byte);
    assert StrSize(s) == 32767;
  }

  /** (len - 2) / 2 in C, which truncates toward zero: the characters the decoder checks for. */
  function CheckedCount(length: byte): nat {
    if length < 2 then 0 else (length - 2) / 2
  }

  /** usbh_get_string_desc after its transfer filled src. `memory` starts with the output buffer of outputLen
      bytes; one byte of whatever lies behind it is included, because the source may write it. */
  method GetStringDesc(src: seq<byte>, memory: array<byte>, outputLen: nat) returns (rc: int)
    requires |src| >= 256 && outputLen < memory.Length
    modifies memory
    ensures rc == if CheckedCount(src[0]) > outputLen then NOMEM else 0
    ensures rc == 0 ==> |Decode(src)| <= outputLen + 1
    ensures memory[..] == if rc == 0 then Decode(src) + old(memory[..])[|Decode(src)|..] else old(memory[..])
  {
    var len: int := src[0];
    var chars := if len < 2 then 0 else (len - 2) / 2;
    if chars > outputLen {
      return NOMEM;
    }
    DecodeInto(src, memory);
    return 0;
  }

  /** The loop that copies every other byte. */
  method DecodeInto(src: seq<byte>, memory: array<byte>)
    requires |src| >= 256 && DecodedCount(src[0]) <= memory.Length
    modifies memory
    ensures memory[..] == Decode(src) + old(memory[..])[|Decode(src)|..]
  {
    var len: int, i, j := src[0], 2, 0;
    while i < len
      invariant i == 2 * j + 2 && j <= DecodedCount(src[0])
      invariant forall t :: 0 <= t < j ==> memory[t] == src[2 * t + 2]
      invariant forall t :: j <= t < memory.Length ==> memory[t] == old(memory[t])
    {
      memory[j] := src[i];
      i, j := i + 2, j + 1;
    }
    assert j == DecodedCount(src[0]);
    assert memory[..j] == Decode(src);
  }

  /** The length byte is odd and one character more than the output holds follows it. */
  predicate Overruns(length: byte, outputLen: nat) {
    length >= 3 && length % 2 == 1 && (length - 3) / 2 == outputLen
  }

  /** The decoder refuses a descriptor iff it holds more whole characters than the output. */
  lemma DecoderRefusesExactly(length: byte, outputLen: nat)
    ensures CheckedCount(length) > outputLen <==> length >= 2 * outputLen + 4
    ensures length >= 2 ==> length - 2 <= 2 * DecodedCount(length) <= length - 1
  {
  }

  /** An accepted descriptor stays inside the output iff it does not overrun; when it does, by one byte. */
  lemma DecoderOverrunsExactly(length: byte, outputLen: nat)
    requires CheckedCount(length) <= outputLen
    ensures DecodedCount(length) <= outputLen <==> !Overruns(length, outputLen)
    ensures Overruns(length, outputLen) ==> DecodedCount(length) == outputLen + 1
  {
  }

  /** Length byte 27 with room for 12 characters: accepted, and 13 are written. */
  lemma DecoderOverrunExample()
    ensures CheckedCount(27) <= 12 && DecodedCount(27) == 13 && Overruns(27, 12)
  {
  }

  /** The host asks for 255 bytes. It gets the device's string back, for every string that fits the device's
      buffer, exactly when it has at most 126 characters: beyond that the length byte overflows. */
  lemma RoundTrip(s: seq<byte>, src: seq<byte>)
    requires 2 * |s| + 2 <= REQUEST_BUFFER_LEN && |src| >= 256
    requires src[..Min(|Encode(s)|, 255)] == Encode(s)[..Min(|Encode(s)|, 255)]
    ensures Decode(src) == s <==> |s| <= 126
  {
    var d := Encode(s);
    var n := Min(|d|, 255);
    assert src[..n][0] == d[..n][0];
    if |s| <= 126 {
      assert |Decode(src)| == |s|;
      forall j | 0 <= j < |s|
        ensures Decode(src)[j] == s[j]
      {
        assert Decode(src)[j] == src[..n][2 * j + 2] == d[..n][2 * j + 2];
        EncodeAt(s, j);
      }
    } else {
      assert |Decode(src)| != |s|;
    }
  }
}
