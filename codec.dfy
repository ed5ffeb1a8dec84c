/** Decoding of inbound buffers (`buffer_get_string`, `buffer_get_number`).
    Both read a byte buffer and move a cursor through it; the cursor, a
    pointer to the caller's local `index`, is passed in and handed back. */
module Codec {
  import opened Wire

  /** No byte in `b[from..to)` is a zero terminator. */
  ghost predicate ZeroFree(b: seq<Byte>, from: int, to: int)
    requires 0 <= from && to <= |b|
  {
    forall i :: from <= i < to ==> b[i] != 0
  }

  /** Position of the first zero byte in `b[from..l)`, or `l` when there is none. */
  function FirstZero(b: seq<Byte>, from: nat, l: nat): (p: nat)
    requires from <= l <= |b|
    ensures from <= p <= l
    ensures ZeroFree(b, from, p)
    ensures p < l ==> b[p] == 0
    decreases l - from
  {
    if from == l then l
    else if b[from] == 0 then from
    else FirstZero(b, from + 1, l)
  }

  /** The first zero is unique: any zero with none before it is the one found. */
  lemma FirstZeroAt(b: seq<Byte>, from: nat, l: nat, p: nat)
    requires from <= p < l <= |b| && b[p] == 0 && ZeroFree(b, from, p)
    ensures FirstZero(b, from, l) == p
  {
  }

  /** Extending the range by one byte appends that byte's rune. */
  lemma RuneAppended(b: seq<Byte>, start: nat, i: nat)
    requires start <= i < |b|
    ensures EncodeRunes(b[start..i + 1]) == EncodeRunes(b[start..i]) + RuneBytes(b[i])
  {
    assert b[start..i + 1] == b[start..i] + [b[i]];
    EncodeAppend(b[start..i], [b[i]]);
  }

  /** What `buffer_get_string(b, &index, l)` returns with `index == start`:
      the string and the final cursor. The cursor passes a terminator that is
      found, but stops ON the last byte examined when there is none. */
  function StringAt(b: seq<Byte>, start: nat, l: nat): (f: (seq<Byte>, nat))
    requires start < l ==> l <= |b|
  {
    if l <= start then ([], start)
    else
      var p := FirstZero(b, start, l);
      if p < l then (EncodeRunes(b[start..p]), p + 1)
      else (EncodeRunes(b[start..l]), l - 1)
  }

  /** `buffer_get_string`: collects the bytes from `start` up to the first
      zero byte or the limit `l`, each byte becoming one rune of the string. */
  method GetString(buff: array<Byte>, start: nat, l: nat) returns (s: seq<Byte>, index: nat)
    requires start < l ==> l <= buff.Length
    ensures (s, index) == StringAt(buff[..], start, l)
    ensures forall k :: 0 <= k < |s| ==> s[k] != 0
  {
    s := [];
    index := start;
    if l <= start {
      return;
    }
    ghost var b := buff[..];
    var i := start;
    while i < l
      invariant start <= i <= l
      invariant ZeroFree(b, start, i)
      invariant s == EncodeRunes(b[start..i])
      invariant index == if i == start then start else i - 1
    {
      index := i;
      if buff[i] == 0 {
        index := index + 1;
        break;
      }
      RuneAppended(b, start, i);
      s := s + RuneBytes(buff[i]);
      i := i + 1;
    }
    assert b == buff[..];
    if i < l {
      FirstZeroAt(b, start, l, i);
      assert StringAt(b, start, l) == (EncodeRunes(b[start..i]), i + 1);
    } else {
      assert StringAt(b, start, l) == (EncodeRunes(b[start..l]), l - 1);
    }
    EncodeNoZero(b[start..i]);
  }

  /** `buffer_get_number`: the byte under the cursor, and the cursor one
      further. Go panics when the cursor is outside the buffer. */
  method GetNumber(buff: array<Byte>, index: nat) returns (val: Byte, next: nat)
    requires index < buff.Length
    ensures val == buff[index] && next == index + 1
  {
    val := buff[index];
    next := index + 1;
  }

  /** The three outcomes of `buffer_get_string`. */
  lemma StringAtCases(b: seq<Byte>, start: nat, l: nat)
    requires start < l ==> l <= |b|
    // an empty range yields the empty string and leaves the cursor alone
    ensures l <= start ==> StringAt(b, start, l) == ([], start)
    // a terminator in range: the runes before the first zero, cursor just past it
    ensures start < l && !ZeroFree(b, start, l) ==>
              var (s, index) := StringAt(b, start, l);
              start < index <= l && b[index - 1] == 0 && ZeroFree(b, start, index - 1)
              && s == EncodeRunes(b[start..index - 1])
    // no terminator: every byte up to the limit, cursor on the last one
    ensures start < l && ZeroFree(b, start, l) ==>
              StringAt(b, start, l) == (EncodeRunes(b[start..l]), l - 1)
  {
  }

  /** A string with no terminator before the limit leaves the cursor on its
      own last byte, so a number read next reads that byte a second time:
      the string ends with the rune of the very byte the number takes. */
  lemma NumberAfterUnterminatedString(b: seq<Byte>, start: nat, l: nat)
    requires start < l <= |b| && ZeroFree(b, start, l)
    ensures StringAt(b, start, l).1 == l - 1
    ensures var s := StringAt(b, start, l).0;
            |s| >= |RuneBytes(b[l - 1])|
            && s[|s| - |RuneBytes(b[l - 1])|..] == RuneBytes(b[l - 1])
  {
    assert b[start..l] == b[start..l - 1] + [b[l - 1]];
    EncodeAppend(b[start..l - 1], [b[l - 1]]);
    assert EncodeRunes([b[l - 1]]) == RuneBytes(b[l - 1]);
  }

  /** Round trip with the client's encoding: when the client sends the runes
      `b[start..p)`, none of them zero, followed by a zero terminator inside
      the limit, the decoded string is the bytes of those runes, the cursor
      lands just past the terminator, and the string bytes decode back to
      exactly those runes. */
  lemma TerminatedStringRoundTrip(b: seq<Byte>, start: nat, l: nat, p: nat)
    requires start <= p < l <= |b| && b[p] == 0 && ZeroFree(b, start, p)
    ensures StringAt(b, start, l) == (EncodeRunes(b[start..p]), p + 1)
    ensures DecodeRunes(StringAt(b, start, l).0) == Some(b[start..p])
  {
    FirstZeroAt(b, start, l, p);
    assert StringAt(b, start, l).0 == EncodeRunes(b[start..p]);
    DecodeEncode(b[start..p]);
  }

  /** In `handleMessage` the string starts at 1 and the buffer holds
      `BufSize` bytes: the cursor after it falls outside the buffer exactly
      when the read filled the buffer and its only zero after the tag is the
      very last byte. */
  lemma CursorPastBufferIff(buf: seq<Byte>, reqLen: nat)
    requires |buf| == BufSize && reqLen <= BufSize
    ensures StringAt(buf, 1, reqLen).1 >= |buf| <==>
              reqLen == BufSize && buf[BufSize - 1] == 0 && ZeroFree(buf, 1, BufSize - 1)
  {
    if 1 < reqLen {
      if reqLen == BufSize && buf[BufSize - 1] == 0 && ZeroFree(buf, 1, BufSize - 1) {
        FirstZeroAt(buf, 1, reqLen, BufSize - 1);
      }
    }
  }
}
