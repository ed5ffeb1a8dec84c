/** Wire vocabulary shared by the server and its game client: bytes, the
    one-byte message tags, the writes the server performs on a connection,
    the UTF-8 bytes of a Go string built from byte-valued runes, and the
    little-endian 16-bit number encoding. */
module Wire {

  /** One octet on the wire (Go's `byte`). */
  type Byte = x: int | 0 <= x < 256

  /** Every read goes into a fresh buffer of this many bytes. */
  const BufSize := 1024

  /** The `NET_*` message tags. Their values live in a file that is not part
      of this model, so they are parameters; the server only relies on them
      being unsigned 8-bit values. */
  datatype Tags = Tags(getTestMsg: Byte, getRequestNum: Byte, getMsg: Byte,
                       sendKick: Byte, sendRequestedNum: Byte, broadcastMsg: Byte)
  {
    /** The three GET_* tags are cases of one `switch`, which Go only compiles
        when they differ; SEND_REQUESTED_NUM is documented as 2. */
    predicate Valid() {
      getTestMsg != getRequestNum && getTestMsg != getMsg && getRequestNum != getMsg
      && sendRequestedNum == 2
    }
  }

  /** One `binary.Write` call: the bytes it puts on connection `to`. */
  datatype Write<C> = Write(to: C, bytes: seq<Byte>)

  /** The payloads of the writes addressed to `c`, in the order they happen. */
  function WritesTo<C(==)>(ws: seq<Write<C>>, c: C): (r: seq<seq<Byte>>)
    ensures |r| <= |ws|
  {
    if ws == [] then []
    else WritesTo(ws[..|ws| - 1], c) + (if ws[|ws| - 1].to == c then [ws[|ws| - 1].bytes] else [])
  }

  /** One more write adds its payload to its own connection's list only. */
  lemma WritesToSnoc<C>(ws: seq<Write<C>>, w: Write<C>, c: C)
    ensures WritesTo(ws + [w], c) == WritesTo(ws, c) + (if w.to == c then [w.bytes] else [])
  {
    assert (ws + [w])[..|ws|] == ws;
  }

  /** `[]byte(s)` of a Go string literal made of ASCII characters. */
  function AsciiBytes(s: string): (b: seq<Byte>)
    requires forall i :: 0 <= i < |s| ==> s[i] as int < 0x80
    ensures |b| == |s|
    ensures forall i :: 0 <= i < |s| ==> b[i] == s[i] as int
  {
    seq(|s|, i requires 0 <= i < |s| => s[i] as int)
  }

  /** `binary.Write(conn, binary.LittleEndian, uint16(n))`. */
  function Uint16LE(n: int): (b: seq<Byte>)
    requires 0 <= n < 0x1_0000
    ensures |b| == 2 && b[0] as int + 0x100 * (b[1] as int) == n
  {
    [n % 0x100, n / 0x100]
  }

  // ---------------------------------------------------------------------
  // Go strings built from bytes: `string(b)` is the rune with code point b,
  // and a Go string holds the UTF-8 encoding of its runes.
  // ---------------------------------------------------------------------

  /** The UTF-8 encoding of the rune whose code point is the byte `b`. */
  function RuneBytes(b: Byte): (u: seq<Byte>)
    ensures b < 0x80 ==> u == [b]
    ensures b >= 0x80 ==> |u| == 2 && 0xC2 <= u[0] <= 0xC3 && 0x80 <= u[1] < 0xC0
                          && (u[0] - 0xC0) * 0x40 + (u[1] - 0x80) == b
  {
    if b < 0x80 then [b] else [0xC0 + b / 0x40, 0x80 + b % 0x40]
  }

  /** The bytes of the Go string whose runes are the code points `runes`. */
  function EncodeRunes(runes: seq<Byte>): (u: seq<Byte>)
    ensures |runes| <= |u| <= 2 * |runes|
    ensures |u| == |runes| <==> forall i :: 0 <= i < |runes| ==> runes[i] < 0x80
  {
    if runes == [] then [] else RuneBytes(runes[0]) + EncodeRunes(runes[1..])
  }

  /** Reads UTF-8 bytes back as code points below 256; None when the bytes
      are not such an encoding. */
  function DecodeRunes(u: seq<Byte>): (r: Option<seq<Byte>>)
    ensures r.Some? ==> |r.value| <= |u|
  {
    if u == [] then Some([])
    else if u[0] < 0x80 then
      match DecodeRunes(u[1..])
      case Some(rest) => Some([u[0]] + rest)
      case None => None
    else if |u| >= 2 && 0xC2 <= u[0] <= 0xC3 && 0x80 <= u[1] < 0xC0 then
      match DecodeRunes(u[2..])
      case Some(rest) => Some([(u[0] - 0xC0) * 0x40 + (u[1] - 0x80)] + rest)
      case None => None
    else None
  }

  datatype Option<T> = None | Some(value: T)

  /** Encoding distributes over concatenation of rune sequences. */
  lemma {:induction false} EncodeAppend(a: seq<Byte>, b: seq<Byte>)
    ensures EncodeRunes(a + b) == EncodeRunes(a) + EncodeRunes(b)
  {
    if a == [] {
      assert a + b == b;
    } else {
      assert (a + b)[1..] == a[1..] + b;
      EncodeAppend(a[1..], b);
    }
  }

  /** The string bytes always decode back to the runes they were built from. */
  lemma {:induction false} DecodeEncode(runes: seq<Byte>)
    ensures DecodeRunes(EncodeRunes(runes)) == Some(runes)
  {
    if runes != [] {
      var u := EncodeRunes(runes);
      var h := RuneBytes(runes[0]);
      assert u == h + EncodeRunes(runes[1..]);
      DecodeEncode(runes[1..]);
      if runes[0] < 0x80 {
        assert u[1..] == EncodeRunes(runes[1..]);
      } else {
        assert u[2..] == EncodeRunes(runes[1..]);
      }
      assert [runes[0]] + runes[1..] == runes;
    }
  }

  /** A string built only from non-zero runes contains no zero byte, so a
      receiver looking for a terminator never finds one inside it. */
  lemma {:induction false} EncodeNoZero(runes: seq<Byte>)
    requires forall i :: 0 <= i < |runes| ==> runes[i] != 0
    ensures forall k :: 0 <= k < |EncodeRunes(runes)| ==> EncodeRunes(runes)[k] != 0
  {
    if runes != [] {
      EncodeNoZero(runes[1..]);
    }
  }

  /** ASCII runes pass through unchanged. */
  lemma {:induction false} EncodeAscii(runes: seq<Byte>)
    requires forall i :: 0 <= i < |runes| ==> runes[i] < 0x80
    ensures EncodeRunes(runes) == runes
  {
    if runes != [] {
      EncodeAscii(runes[1..]);
    }
  }
}
