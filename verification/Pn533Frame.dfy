/**
  Standard PN533 frames: building one in place around a payload, validating a received one, and
  taking the payload out again.

  Layout: preamble, start of frame 00 FF, datalen, its checksum, then `datalen` octets of data
  (direction, command code, payload), the data checksum and a postamble.
 */
module Pn533Frame {
  import opened Sequences
  import opened Wrappers

  const DATA: nat := 5          // offset of data[] in struct pn533_std_frame
  const HEADER_LEN: nat := 7    // PN533_STD_FRAME_HEADER_LEN
  const TAIL_LEN: nat := 2      // PN533_STD_FRAME_TAIL_LEN
  const DIR_OUT: byte := 0xD4
  const MAX_STD_PAYLOAD: nat := 253

  // ---------- checksums ----------

  /** pn533_std_checksum: value + checksum is 0 modulo 256. */
  function Checksum(value: byte): (c: byte)
    ensures (value + c) % 256 == 0
  {
    (255 - value + 1) % 256
  }

  function Sum(data: seq<byte>): byte
  {
    if data == [] then 0 else (Sum(data[..|data| - 1]) + data[|data| - 1]) % 256
  }

  /** pn533_std_data_checksum */
  method DataChecksum(frame: array<byte>, from: nat, datalen: nat) returns (c: byte)
    requires from + datalen <= frame.Length
    ensures c == Checksum(Sum(frame[from..from + datalen]))
  {
    var sum: byte := 0;
    for i := 0 to datalen
      invariant sum == Sum(frame[from..from + i])
    {
      assert frame[from..from + i + 1][..i] == frame[from..from + i];
      sum := (sum + frame[from + i]) % 256;
    }
    c := Checksum(sum);
  }

  // ---------- building ----------

  function DataLen(payloadLen: nat): byte { (2 + payloadLen) % 256 }

  /** The buffer after tx_frame_init and tx_update_payload_len; tail is what skb_put found. */
  function Headed(code: byte, payload: seq<byte>, tail: seq<byte>): seq<byte>
  {
    [0, 0x00, 0xFF, DataLen(|payload|), Checksum(DataLen(|payload|)), DIR_OUT, code] + payload + tail
  }

  /** pn533_build_cmd_frame: the checksum and the postamble go where datalen, an octet, says. */
  function Built(code: byte, payload: seq<byte>, tail: seq<byte>): (f: seq<byte>)
    requires |tail| == TAIL_LEN
    ensures |f| == HEADER_LEN + |payload| + TAIL_LEN
  {
    var n := DataLen(|payload|);
    var h := Headed(code, payload, tail);
    h[DATA + n := Checksum(Sum(h[DATA..DATA + n]))][DATA + n + 1 := 0]
  }

  /** pn533_build_cmd_frame on a buffer that already holds the payload. */
  method BuildCmdFrame(skb: array<byte>, code: byte, ghost payload: seq<byte>, ghost tail: seq<byte>)
    requires |tail| == TAIL_LEN && skb.Length == HEADER_LEN + |payload| + TAIL_LEN
    requires skb[HEADER_LEN..] == payload + tail
    modifies skb
    ensures skb[..] == Built(code, payload, tail)
  {
    hide Checksum, DataLen, Sum, Headed;
    var n := WriteHeader(skb, code, payload, tail);
    // tx_frame_finish
    ghost var h := skb[..];
    assert skb[DATA..DATA + n] == h[DATA..DATA + n];
    skb[DATA + n] := DataChecksum(skb, DATA, n);
    skb[DATA + n + 1] := 0;
  }

  /** tx_frame_init, tx_update_payload_len and the length checksum; returns the length octet. */
  method WriteHeader(skb: array<byte>, code: byte, ghost payload: seq<byte>, ghost tail: seq<byte>) returns (n: byte)
    requires |tail| == TAIL_LEN && skb.Length == HEADER_LEN + |payload| + TAIL_LEN
    requires skb[HEADER_LEN..] == payload + tail
    modifies skb
    ensures n == DataLen(|payload|) <= 2 + |payload| && skb[..] == Headed(code, payload, tail)
  {
    hide Checksum, Sum;
    var payloadLen := skb.Length - HEADER_LEN - TAIL_LEN;
    // tx_frame_init
    skb[0] := 0;
    skb[1], skb[2] := 0x00, 0xFF;
    skb[DATA], skb[DATA + 1] := DIR_OUT, code;
    skb[3] := 2;
    // tx_update_payload_len
    skb[3] := (skb[3] + payloadLen) % 256;
    n := skb[3];
    assert n == DataLen(|payload|);
    hide DataLen;
    skb[4] := Checksum(n);
    assert skb[HEADER_LEN..] == payload + tail;
    assert skb[..HEADER_LEN] == [0, 0x00, 0xFF, n, Checksum(n), DIR_OUT, code];
    Assoc(skb[..HEADER_LEN], payload, tail);
    assert skb[..] == skb[..HEADER_LEN] + skb[HEADER_LEN..];
  }

  // ---------- receiving ----------

  predicate InBuffer(f: seq<byte>)
  {
    |f| >= DATA && |f| > DATA + f[3]
  }

  predicate HasHeader(f: seq<byte>) { |f| >= DATA }

  predicate StartsFrame(f: seq<byte>)
    requires HasHeader(f)
  {
    f[1] == 0x00 && f[2] == 0xFF
  }

  /** The length octet is trusted only when its own checksum is right. */
  predicate LengthIsValid(f: seq<byte>)
    requires HasHeader(f)
  {
    StartsFrame(f) && Checksum(f[3]) == f[4]
  }

  /** pn533_std_rx_frame_is_valid */
  predicate IsValid(f: seq<byte>)
    requires HasHeader(f) && (LengthIsValid(f) ==> InBuffer(f))
  {
    LengthIsValid(f) && Checksum(Sum(f[DATA..DATA + f[3]])) == f[DATA + f[3]]
  }

  method RxFrameIsValid(frame: array<byte>) returns (valid: bool)
    requires HasHeader(frame[..]) && (LengthIsValid(frame[..]) ==> InBuffer(frame[..]))
    ensures valid <==> IsValid(frame[..])
  {
    if frame[1] != 0x00 || frame[2] != 0xFF {
      return false;
    }
    if Checksum(frame[3]) != frame[4] {
      return false;
    }
    var c := DataChecksum(frame, DATA, frame[3]);
    assert frame[DATA..DATA + frame[3]] == frame[..][DATA..DATA + frame[3]];
    valid := c == frame[DATA + frame[3]];
  }

  /** pn533_std_rx_frame_is_ack */
  predicate IsAck(f: seq<byte>)
    requires HasHeader(f)
  {
    StartsFrame(f) && f[3] == 0 && f[4] == 0xFF
  }

  /** pn533_std_get_cmd_code */
  function CmdCode(f: seq<byte>): byte
    requires |f| >= HEADER_LEN
  {
    f[DATA + 1]
  }

  /** pn533_send_async_complete: put the frame size, pull the header, trim the tail. */
  function Received(f: seq<byte>): Option<seq<byte>>
    requires InBuffer(f)
  {
    if f[3] < 2 then None    // the pull or the trim would go below zero
    else
      var put := f[..DATA + f[3]];
      Some(put[HEADER_LEN..])
  }

  // ---------- the round trip ----------

  /** Every built frame passes validation, whatever its length. */
  lemma BuiltIsValid(code: byte, payload: seq<byte>, tail: seq<byte>)
    requires |tail| == TAIL_LEN
    ensures InBuffer(Built(code, payload, tail)) && IsValid(Built(code, payload, tail))
  {
    var f := Built(code, payload, tail);
    var n := DataLen(|payload|);
    assert f[3] == n;
    assert f[DATA..DATA + n] == Headed(code, payload, tail)[DATA..DATA + n];
  }

  /** The round trip, exactly: code and payload come back if and only if the payload fits an
      octet together with direction and code. */
  lemma RoundTrip(code: byte, payload: seq<byte>, tail: seq<byte>)
    requires |tail| == TAIL_LEN
    ensures
      var f := Built(code, payload, tail);
      && InBuffer(f)
      && (CmdCode(f) == code && Received(f) == Some(payload) <==> |payload| <= MAX_STD_PAYLOAD)
  {
    BuiltIsValid(code, payload, tail);
    var f := Built(code, payload, tail);
    var n := DataLen(|payload|);
    BuiltParts(code, payload, tail);
    hide Built, IsValid;
    assert n <= 2 + |payload| && (n == 2 + |payload| <==> |payload| <= MAX_STD_PAYLOAD);
    hide DataLen;
    TakeThenDrop(f, HEADER_LEN, DATA + n);
    ReceivedLength(f);
    hide Received;
  }

  lemma ReceivedLength(f: seq<byte>)
    requires InBuffer(f)
    ensures Received(f).Some? <==> f[3] >= 2
    ensures f[3] >= 2 ==> |Received(f).value| == f[3] - 2 && Received(f).value == f[..DATA + f[3]][HEADER_LEN..]
  {
  }

  /** What a built frame holds in front of its checksum. */
  lemma BuiltParts(code: byte, payload: seq<byte>, tail: seq<byte>)
    requires |tail| == TAIL_LEN
    ensures
      var f, n := Built(code, payload, tail), DataLen(|payload|);
      && f[3] == n && (n >= 2 ==> CmdCode(f) == code)
      && (n == 2 + |payload| ==> f[HEADER_LEN..DATA + n] == payload)
  {
    hide Checksum, Sum;
    var f, h, n := Built(code, payload, tail), Headed(code, payload, tail), DataLen(|payload|);
    assert n <= 2 + |payload|;
    hide DataLen;
    if n == 2 + |payload| {
      assert f[HEADER_LEN..DATA + n] == h[HEADER_LEN..DATA + n] == payload;
    }
  }

  lemma TakeThenDrop(f: seq<byte>, i: nat, j: nat)
    requires j <= |f|
    ensures i <= j ==> f[..j][i..] == f[i..j]
  {
  }

  // ---------- the octets of a frame ----------

  /** The acknowledge frame, behind its preamble. */
  lemma AckOctets(f: seq<byte>)
    requires HasHeader(f)
    ensures IsAck(f) <==> f[1..5] == [0x00, 0xFF, 0x00, 0xFF]
  {
    assert f[1..5] == [f[1], f[2], f[3], f[4]];
  }

  function Total(data: seq<byte>): nat
  {
    if data == [] then 0 else Total(data[..|data| - 1]) + data[|data| - 1]
  }

  lemma {:induction false} SumIsTotal(data: seq<byte>)
    ensures Sum(data) == Total(data) % 256
  {
    if data != [] {
      var n := |data| - 1;
      SumIsTotal(data[..n]);
      ModuloAgain(Total(data[..n]), data[n]);
    }
  }

  /** The frame octet by octet: preamble 00, start 00 FF, the length and its complement, D4, the code, the
      payload, an octet that makes the data add up to 0 modulo 256, and the postamble 00. */
  lemma FrameOctets(code: byte, payload: seq<byte>, tail: seq<byte>) returns (lcs: byte, dcs: byte)
    requires |tail| == TAIL_LEN && |payload| <= MAX_STD_PAYLOAD
    ensures Built(code, payload, tail) == [0x00, 0x00, 0xFF, 2 + |payload|, lcs, 0xD4, code] + payload + [dcs, 0x00]
    ensures (2 + |payload| + lcs) % 256 == 0
    ensures (Total([0xD4, code] + payload) + dcs) % 256 == 0
  {
    var n := 2 + |payload|;
    var h := Headed(code, payload, tail);
    var data := [0xD4, code] + payload;
    lcs, dcs := Checksum(n), Checksum(Sum(data));
    SumIsTotal(data);
    ModuloAgain(Total(data), dcs);
    hide Checksum, Sum, Total;
    assert h[DATA..DATA + n] == data;
    assert h == [0x00, 0x00, 0xFF, n, lcs, 0xD4, code] + payload + tail;
    assert Built(code, payload, tail) == h[DATA + n := dcs][DATA + n + 1 := 0];
    hide *;
    PutTail([0x00, 0x00, 0xFF, n, lcs, 0xD4, code] + payload, tail, dcs);
  }

  lemma PutTail(front: seq<byte>, tail: seq<byte>, dcs: byte)
    requires |tail| == 2
    ensures (front + tail)[|front| := dcs][|front| + 1 := 0] == front + [dcs, 0]
  {
  }

  // ---------- error detection ----------

  lemma ModuloSwap(s: byte, x: byte, d: byte, v: byte)
    ensures ((s - d + v) % 256 + x) % 256 == ((s + x) % 256 - d + v) % 256
    ensures v != d ==> (s - d + v) % 256 != s
  {
    ModuloAgain(s - d + v, x);
    ModuloAgain(s + x, v - d);
    hide *;
    assert (s + x) % 256 - d + v == (s + x) % 256 + (v - d);
    assert s - d + v + x == s + x + (v - d);
  }

  lemma ModuloAgain(a: int, b: int)
    ensures (a % 256 + b) % 256 == (a + b) % 256
  {
  }

  lemma ModuloReplace(s: byte, d: byte, v: byte)
    ensures (s + v) % 256 == ((s + d) % 256 - d + v) % 256
  {
  }

  lemma SumLast(data: seq<byte>)
    requires data != []
    ensures Sum(data) == (Sum(data[..|data| - 1]) + data[|data| - 1]) % 256
  {
  }

  lemma {:induction false} SumChange(data: seq<byte>, i: nat, v: byte)
    requires i < |data|
    ensures Sum(data[i := v]) == (Sum(data) - data[i] + v) % 256
  {
    hide Sum;
    var n := |data| - 1;
    var changed := data[i := v];
    SumLast(data);
    SumLast(changed);
    if i < n {
      assert changed[..n] == data[..n][i := v] && data[..n][i] == data[i] && changed[n] == data[n];
      SumChange(data[..n], i, v);
      ModuloSwap(Sum(data[..n]), data[n], data[i], v);
    } else {
      assert changed[..n] == data[..n];
      ModuloReplace(Sum(data[..n]), data[n], v);
    }
  }

  lemma ChecksumInjective(a: byte, b: byte)
    ensures Checksum(a) == Checksum(b) <==> a == b
  {
  }

  /** In a valid frame any change of one octet is detected, except in the preamble and behind the
      data checksum; a changed length is detected before anything is read by it. */
  lemma SingleChangeDetected(f: seq<byte>, i: nat, v: byte)
    requires InBuffer(f) && IsValid(f) && i < |f| && v != f[i]
    ensures LengthIsValid(f[i := v]) ==> InBuffer(f[i := v])
    ensures IsValid(f[i := v]) <==> i == 0 || i > DATA + f[3]
  {
    var g := f[i := v];
    var n := f[3];
    if i == 3 {
      ChecksumInjective(f[3], g[3]);
    } else if DATA <= i < DATA + n {
      SumChange(f[DATA..DATA + n], i - DATA, v);
      ModuloSwap(Sum(f[DATA..DATA + n]), 0, f[i], v);
      assert g[DATA..DATA + n] == f[DATA..DATA + n][i - DATA := v];
      ChecksumInjective(Sum(f[DATA..DATA + n]), Sum(g[DATA..DATA + n]));
    } else {
      assert g[DATA..DATA + n] == f[DATA..DATA + n];
    }
  }

  /** No frame is both a valid response and an acknowledge. */
  lemma ResponseIsNotAck(f: seq<byte>)
    requires HasHeader(f) && (LengthIsValid(f) ==> InBuffer(f))
    ensures !(IsValid(f) && IsAck(f))
  {
  }
}
