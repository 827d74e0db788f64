/**
  Conversion of a hexadecimal FCP template (ETSI TS 102 221 section 11.1.1.3) to the response
  structure of 3GPP TS 51.011 section 9.2.1.

  The converter trusts the sizes it reads, so it may read behind the stream: memory is a total
  function, of which the stream is only the beginning, and every theorem holds for every memory.
 */
module FcpParser {
  import opened Sequences
  import opened Wrappers

  const EINVAL := -22
  const ENOTSUP := -95

  const TAG_TEMPLATE: byte := 0x62
  const TAG_SIZE: byte := 0x80
  const TAG_DESCRIPTOR: byte := 0x82
  const TAG_ID: byte := 0x83

  type Memory = nat -> char

  // ---------- hexadecimal ----------

  /** char2nib: a character that is no digit counts as 0. */
  function Char2Nib(c: char): nibble
  {
    if '0' <= c <= '9' then c as int - '0' as int
    else if 'A' <= c <= 'F' then c as int - 'A' as int + 10
    else if 'a' <= c <= 'f' then c as int - 'a' as int + 10
    else 0
  }

  const NIBBLES := "0123456789ABCDEF"

  function HexOctet(v: byte): (r: string)
    ensures |r| == 2
  {
    [NIBBLES[v / 16], NIBBLES[v % 16]]
  }

  function Hex(b: seq<byte>): (r: string)
    ensures |r| == 2 * |b|
  {
    if b == [] then "" else HexOctet(b[0]) + Hex(b[1..])
  }

  function Octet(mem: Memory, at: nat): byte
  {
    16 * (Char2Nib(mem(at)) as int) + Char2Nib(mem(at + 1))
  }

  function Octets(mem: Memory, at: nat, n: nat): (r: seq<byte>)
    ensures |r| == n
    decreases n
  {
    if n == 0 then [] else [Octet(mem, at)] + Octets(mem, at + 2, n - 1)
  }

  lemma NibbleRoundTrip(n: nibble)
    ensures Char2Nib(NIBBLES[n]) == n
  {
  }

  /** The digits are read in upper and lower case, and any other character as 0. */
  lemma DigitsAre(c: char, k: nat)
    requires k < 16
    ensures c == "0123456789ABCDEF"[k] || c == "0123456789abcdef"[k] ==> Char2Nib(c) == k
    ensures c !in "0123456789ABCDEF" && c !in "0123456789abcdef" ==> Char2Nib(c) == 0
  {
    if '0' <= c <= '9' {
      assert "0123456789ABCDEF"[c as int - '0' as int] == c;
    } else if 'A' <= c <= 'F' {
      assert "0123456789ABCDEF"[c as int - 'A' as int + 10] == c;
    } else if 'a' <= c <= 'f' {
      assert "0123456789abcdef"[c as int - 'a' as int + 10] == c;
    }
  }

  /** An octet has two digits, the high one first, and they are written in upper case. */
  lemma OctetDigits(mem: Memory, at: nat, v: byte)
    ensures HexOctet(v) == ["0123456789ABCDEF"[v / 16], "0123456789ABCDEF"[v % 16]]
    ensures Octet(mem, at) / 16 == Char2Nib(mem(at)) && Octet(mem, at) % 16 == Char2Nib(mem(at + 1))
  {
    hide Char2Nib;
  }

  lemma HoldsParts(mem: Memory, at: nat, s: string, t: string)
    requires Holds(mem, at, s + t)
    ensures Holds(mem, at, s) && Holds(mem, at + |s|, t)
  {
    forall i | 0 <= i < |s| ensures s[i] == mem(at + i) {
      assert (s + t)[i] == s[i];
    }
    forall i | 0 <= i < |t| ensures t[i] == mem(at + |s| + i) {
      assert (s + t)[|s| + i] == t[i];
    }
  }

  /** binaryToString is inverted by pairs of char2nib. */
  lemma {:induction false} HexRoundTrip(mem: Memory, at: nat, b: seq<byte>)
    requires Holds(mem, at, Hex(b))
    ensures Octets(mem, at, |b|) == b
    decreases |b|
  {
    if b != [] {
      HoldsParts(mem, at, HexOctet(b[0]), Hex(b[1..]));
      OctetRoundTrip(mem, at, b[0]);
      HexRoundTrip(mem, at + 2, b[1..]);
      hide Hex, Octet, Holds, HexOctet;
      Cons(b);
    }
  }

  lemma OctetRoundTrip(mem: Memory, at: nat, v: byte)
    requires Holds(mem, at, HexOctet(v))
    ensures Octet(mem, at) == v
  {
    var s := HexOctet(v);
    assert s[0] == mem(at + 0) && s[1] == mem(at + 1);
    NibbleRoundTrip(v / 16);
    NibbleRoundTrip(v % 16);
    hide Char2Nib;
  }

  lemma {:induction false} HexAppend(a: seq<byte>, b: seq<byte>)
    ensures Hex(a + b) == Hex(a) + Hex(b)
  {
    if a == [] {
      assert a + b == b;
    } else {
      assert (a + b)[1..] == a[1..] + b;
      HexAppend(a[1..], b);
    }
  }

  lemma {:induction false} OctetsIndex(mem: Memory, at: nat, n: nat, i: nat)
    requires i < n
    ensures Octets(mem, at, n)[i] == Octet(mem, at + 2 * i)
    decreases n
  {
    if i > 0 {
      OctetsIndex(mem, at + 2, n - 1, i - 1);
    }
  }

  lemma {:induction false} OctetsAppend(mem: Memory, at: nat, m: nat, n: nat)
    ensures Octets(mem, at, m + n) == Octets(mem, at, m) + Octets(mem, at + 2 * m, n)
    decreases m
  {
    if m > 0 {
      OctetsAppend(mem, at + 2, m - 1, n);
    }
  }

  // ---------- TLVs ----------

  datatype Tlv = Tlv(tag: byte, value: seq<byte>)

  /** The characters that a TLV takes. */
  function Width(t: Tlv): (r: nat)
    ensures r >= 4
  {
    4 + 2 * |t.value|
  }

  /** parseTlv: its size checks are switched off, so it never fails. */
  function TlvAt(mem: Memory, at: nat): Tlv
  {
    Tlv(Octet(mem, at), Octets(mem, at + 4, Octet(mem, at + 2)))
  }

  /** The TLVs between at and end; the last one may reach behind end. */
  function TlvsAt(mem: Memory, at: nat, end: nat): seq<Tlv>
    decreases end - at
  {
    if at >= end then [] else [TlvAt(mem, at)] + TlvsAt(mem, at + Width(TlvAt(mem, at)), end)
  }

  function Encode(t: Tlv): seq<byte>
    requires |t.value| <= 255
  {
    [t.tag, |t.value|] + t.value
  }

  predicate Encodable(ts: seq<Tlv>)
  {
    forall t <- ts :: |t.value| <= 255
  }

  function EncodeAll(ts: seq<Tlv>): seq<byte>
    requires Encodable(ts)
  {
    if ts == [] then [] else Encode(ts[0]) + EncodeAll(ts[1..])
  }

  lemma TlvRoundTrip(mem: Memory, at: nat, t: Tlv)
    requires |t.value| <= 255 && Holds(mem, at, Hex(Encode(t)))
    ensures TlvAt(mem, at) == t && Width(t) == 2 * |Encode(t)|
  {
    HexRoundTrip(mem, at, Encode(t));
    OctetsAppend(mem, at, 2, |t.value|);
    OctetsIndex(mem, at, |Encode(t)|, 0);
    OctetsIndex(mem, at, |Encode(t)|, 1);
    assert Encode(t)[2..] == t.value;
  }

  /** Well-formed TLVs are read back as they were written. */
  lemma {:induction false} TlvsRoundTrip(mem: Memory, at: nat, ts: seq<Tlv>)
    requires Encodable(ts) && Holds(mem, at, Hex(EncodeAll(ts)))
    ensures TlvsAt(mem, at, at + 2 * |EncodeAll(ts)|) == ts
    decreases |ts|
  {
    hide Hex, TlvAt, Encode, Holds;
    if ts != [] {
      var head, rest := Encode(ts[0]), EncodeAll(ts[1..]);
      HexAppend(head, rest);
      HoldsParts(mem, at, Hex(head), Hex(rest));
      TlvRoundTrip(mem, at, ts[0]);
      TlvsRoundTrip(mem, at + 2 * |head|, ts[1..]);
    }
  }

  /** The property loop ends on every input: each turn takes four characters at least, so that no
      template costs more than 128 turns. */
  lemma {:induction false} TurnsBounded(mem: Memory, at: nat, end: nat)
    ensures 4 * |TlvsAt(mem, at, end)| <= (if at < end then end - at + 3 else 0)
    decreases end - at
  {
    if at < end {
      var next := at + Width(TlvAt(mem, at));
      TurnsBounded(mem, next, end);
      hide TlvAt, Width;
      assert TlvsAt(mem, at, end) == [TlvAt(mem, at)] + TlvsAt(mem, next, end);
    }
  }

  // ---------- the meaning of a template ----------

  /** The fields of struct ts_51011_921_resp that conversion sets; 16-bit ones are big-endian. */
  datatype Resp = Resp(fileSize: int, fileId: int, fileType: byte, fileStatus: byte, dataSize: byte,
                       fileStructure: byte, recordSize: byte)

  const ZERO := Resp(0, 0, 0, 0, 0, 0, 0)

  /** The return value, and what is left in the structure. */
  datatype Result = Result(ret: int, out: Resp)

  function Be16(v: seq<byte>): int
    requires |v| == 2
  {
    256 * (v[0] as int) + v[1]
  }

  predicate IsDf(fd: byte) { fd == 0x38 || fd == 0x78 }             // (fd & 0xBF) == 0x38
  predicate IsEf(fd: byte) { fd < 128 && fd / 16 % 4 == 0 }         // (fd & 0xB0) == 0x00
  predicate IsTransparent(fd: byte) { fd % 8 == 1 }

  function Descriptor(v: seq<byte>, out: Resp): Result
  {
    if |v| < 2 then Result(EINVAL, out)
    else if IsDf(v[0]) then Result(0, out.(fileType := 2))
    else if !IsEf(v[0]) then Result(0, out.(fileType := 0))
    else
      var ef := out.(fileType := 4, fileStatus := 1, dataSize := (out.dataSize + 1) % 256);
      if IsTransparent(v[0]) then Result(0, ef.(fileStructure := 0))
      else if |v| < 5 then Result(EINVAL, ef)
      else
        var rec := ef.(dataSize := (out.dataSize + 2) % 256, recordSize := v[3]);
        if v[0] % 8 == 6 then Result(0, rec.(fileStructure := 3))
        else if v[0] % 8 == 2 then Result(0, rec.(fileStructure := 1))
        else Result(EINVAL, rec)
  }

  /** What one property does; other tags are skipped. */
  function Apply(t: Tlv, out: Resp): Result
  {
    if t.tag == TAG_SIZE then
      if |t.value| != 2 then Result(ENOTSUP, out) else Result(0, out.(fileSize := Be16(t.value)))
    else if t.tag == TAG_ID then
      if |t.value| != 2 then Result(EINVAL, out) else Result(0, out.(fileId := Be16(t.value)))
    else if t.tag == TAG_DESCRIPTOR then Descriptor(t.value, out)
    else Result(0, out)
  }

  /** What a file descriptor says, by the octets of ETSI TS 102 221 table 11.5: 0x38 and 0x78 are a DF, 0x00
      to 0x0F and 0x40 to 0x4F an EF, of which the three low bits are the structure: 1 is transparent, 2
      linear fixed with the record size in octet 3, 6 cyclic likewise.  The rest of the structure stays. */
  lemma DescriptorTable(v: seq<byte>, out: Resp)
    ensures
      var r := Descriptor(v, out);
      if |v| < 2 then r == Result(-22, out)
      else if v[0] in {0x38, 0x78} then r == Result(0, out.(fileType := 2))
      else if !(v[0] < 0x10 || 0x40 <= v[0] < 0x50) then r == Result(0, out.(fileType := 0))
      else
        var low := v[0] % 8;
        if low == 1 then
          r == Result(0, out.(fileType := 4, fileStatus := 1, dataSize := (out.dataSize + 1) % 256, fileStructure := 0))
        else if |v| < 5 then
          r == Result(-22, out.(fileType := 4, fileStatus := 1, dataSize := (out.dataSize + 1) % 256))
        else
          var rec := out.(fileType := 4, fileStatus := 1, dataSize := (out.dataSize + 2) % 256, recordSize := v[3]);
          r == if low == 2 then Result(0, rec.(fileStructure := 1))
               else if low == 6 then Result(0, rec.(fileStructure := 3))
               else Result(-22, rec)
  {
  }

  /** What each property does: a size or an identifier of other than two octets is refused, each with its own
      error, and what is neither of them nor a descriptor changes nothing. */
  lemma PropertyTable(t: Tlv, out: Resp)
    ensures
      var r := Apply(t, out);
      match t.tag
      case 0x80 =>
        r == if |t.value| != 2 then Result(-95, out) else Result(0, out.(fileSize := 256 * (t.value[0] as int) + t.value[1]))
      case 0x83 =>
        r == if |t.value| != 2 then Result(-22, out) else Result(0, out.(fileId := 256 * (t.value[0] as int) + t.value[1]))
      case 0x82 => r == Descriptor(t.value, out)
      case _ => r == Result(0, out)
  {
    hide Descriptor;
  }

  /** Anything but an FCP template is refused, and the structure left as it was. */
  lemma NotATemplate(mem: Memory, out: Resp)
    requires Octet(mem, 0) != 0x62
    ensures Convert(mem, out) == Result(-22, out)
  {
    hide TlvsAt, Fold;
  }

  /** Properties from left to right, up to the first that is refused. */
  function Fold(ts: seq<Tlv>, out: Resp): Result
  {
    if ts == [] then Result(0, out)
    else
      var r := Apply(ts[0], out);
      if r.ret < 0 then r else Fold(ts[1..], r.out)
  }

  function Convert(mem: Memory, out: Resp): Result
  {
    var fcp := TlvAt(mem, 0);
    if fcp.tag != TAG_TEMPLATE then Result(EINVAL, out) else Fold(TlvsAt(mem, 4, Width(fcp)), ZERO)
  }

  /** A well-formed template converts to the fold over its properties, whatever stands behind it. */
  lemma TemplateRoundTrip(mem: Memory, ts: seq<Tlv>, out: Resp)
    requires Encodable(ts) && |EncodeAll(ts)| <= 255
    requires Holds(mem, 0, Hex(Encode(Tlv(0x62, EncodeAll(ts)))))
    ensures Convert(mem, out) == Fold(ts, Resp(0, 0, 0, 0, 0, 0, 0))
  {
    hide Hex, TlvAt, Holds, TlvsAt, Fold;
    var body := EncodeAll(ts);
    TlvRoundTrip(mem, 0, Tlv(TAG_TEMPLATE, body));
    HexAppend([TAG_TEMPLATE, |body|], body);
    HoldsParts(mem, 0, Hex([TAG_TEMPLATE, |body|]), Hex(body));
    TlvsRoundTrip(mem, 4, ts);
  }

  // ---------- what the fold means ----------

  predicate AcceptableDescriptor(v: seq<byte>)
  {
    |v| >= 2 && (!IsDf(v[0]) && IsEf(v[0]) && !IsTransparent(v[0]) ==> |v| >= 5 && v[0] % 8 in {2, 6})
  }

  predicate Acceptable(t: Tlv)
  {
    && (t.tag in {TAG_SIZE, TAG_ID} ==> |t.value| == 2)
    && (t.tag == TAG_DESCRIPTOR ==> AcceptableDescriptor(t.value))
  }

  /** Conversion succeeds exactly when every property is acceptable. */
  lemma {:induction false} SucceedsExactly(ts: seq<Tlv>, out: Resp)
    ensures Fold(ts, out).ret == 0 <==> forall t <- ts :: Acceptable(t)
    ensures Fold(ts, out).ret in {0, EINVAL, ENOTSUP}
  {
    if ts != [] {
      var r := Apply(ts[0], out);
      assert r.ret == (if Acceptable(ts[0]) then 0 else if ts[0].tag == TAG_SIZE then ENOTSUP else EINVAL);
      SucceedsExactly(ts[1..], r.out);
      assert ts == [ts[0]] + ts[1..];
    }
  }

  /** The last property with a tag. */
  function Last(ts: seq<Tlv>, tag: byte): Option<Tlv>
  {
    if ts == [] then None
    else if ts[|ts| - 1].tag == tag then Some(ts[|ts| - 1])
    else Last(ts[..|ts| - 1], tag)
  }

  lemma {:induction false} FoldSnoc(ts: seq<Tlv>, t: Tlv, out: Resp)
    requires Fold(ts, out).ret == 0
    ensures Fold(ts + [t], out) == Apply(t, Fold(ts, out).out)
  {
    if ts != [] {
      assert (ts + [t])[0] == ts[0] && (ts + [t])[1..] == ts[1..] + [t];
      SucceedsExactly(ts, out);
      FoldSnoc(ts[1..], t, Apply(ts[0], out).out);
    } else {
      assert (ts + [t])[1..] == [];
    }
  }

  /** An acceptable property sets the size or the identifier to what it carries, or keeps them. */
  lemma AppliedLast(t: Tlv, out: Resp)
    requires Acceptable(t)
    ensures Apply(t, out).out.fileSize == if t.tag == TAG_SIZE then Be16(t.value) else out.fileSize
    ensures Apply(t, out).out.fileId == if t.tag == TAG_ID then Be16(t.value) else out.fileId
  {
  }

  /** Size and identifier come from the last properties that carry them. */
  lemma {:induction false} LastOneCounts(ts: seq<Tlv>)
    requires Fold(ts, ZERO).ret == 0
    ensures var size := Last(ts, 0x80); var id := Last(ts, 0x83);
      && (size.Some? ==> |size.value.value| == 2) && (id.Some? ==> |id.value.value| == 2)
      && Fold(ts, ZERO).out.fileSize ==
           (if size.None? then 0 else 256 * (size.value.value[0] as int) + size.value.value[1])
      && Fold(ts, ZERO).out.fileId == (if id.None? then 0 else 256 * (id.value.value[0] as int) + id.value.value[1])
  {
    if ts != [] {
      var init, t := ts[..|ts| - 1], ts[|ts| - 1];
      assert ts == init + [t];
      SucceedsExactly(ts, ZERO);
      SucceedsExactly(init, ZERO);
      FoldSnoc(init, t, ZERO);
      LastOneCounts(init);
      hide Fold, Be16;
      AppliedLast(t, Fold(init, ZERO).out);
    }
  }

  /** How many fields a descriptor declares valid. */
  function Declares(t: Tlv): nat
  {
    if t.tag != TAG_DESCRIPTOR || |t.value| < 2 || IsDf(t.value[0]) || !IsEf(t.value[0]) then 0
    else if IsTransparent(t.value[0]) then 1
    else 2
  }

  function Declared(ts: seq<Tlv>): nat
  {
    if ts == [] then 0 else Declares(ts[0]) + Declared(ts[1..])
  }

  /** data_size adds up over all the descriptors of a template, modulo 256: it is that of a single
      descriptor only if there is no other one for an elementary file. */
  lemma {:induction false} DataSizeAddsUp(ts: seq<Tlv>, out: Resp)
    requires Fold(ts, out).ret == 0
    ensures Fold(ts, out).out.dataSize == (out.dataSize + Declared(ts)) % 256
  {
    if ts != [] {
      SucceedsExactly(ts, out);
      var r := Apply(ts[0], out);
      DataSizeAddsUp(ts[1..], r.out);
      assert r.out.dataSize == (out.dataSize + Declares(ts[0])) % 256;
      ModAdd(out.dataSize + Declares(ts[0]), Declared(ts[1..]));
    }
  }

  lemma ModAdd(a: nat, b: nat)
    ensures (a % 256 + b) % 256 == (a + b) % 256
  {
  }

  // ---------- in place ----------

  /** binaryToString */
  method BinaryToString(binary: array<byte>, str: array<char>)
    requires str.Length > 2 * binary.Length
    modifies str
    ensures str[..2 * binary.Length] == Hex(binary[..]) && str[2 * binary.Length] == '\0'
    ensures str[2 * binary.Length + 1..] == old(str[2 * binary.Length + 1..])
  {
    var pos, it := 0, 0;
    assert binary[..0] == [];
    while it != binary.Length
      invariant it <= binary.Length && pos == 2 * it && str[..pos] == Hex(binary[..it])
      invariant forall i :: pos <= i < str.Length ==> str[i] == old(str[i])
      decreases binary.Length - it
    {
      str[pos] := NIBBLES[binary[it] / 16];
      str[pos + 1] := NIBBLES[binary[it] % 16];
      HexAppend(binary[..it], [binary[it]]);
      assert binary[..it + 1] == binary[..it] + [binary[it]];
      it, pos := it + 1, pos + 2;
    }
    assert binary[..it] == binary[..];
    str[pos] := '\0';
  }

  class Response {
    var fileSize: int
    var fileId: int
    var fileType: byte
    var fileStatus: byte
    var dataSize: byte
    var fileStructure: byte
    var recordSize: byte

    function Value(): Resp
      reads this
    {
      Resp(fileSize, fileId, fileType, fileStatus, dataSize, fileStructure, recordSize)
    }

    /** The whole structure is zeroed. */
    method Clear()
      modifies this
      ensures Value() == ZERO
    {
      fileSize, fileId, fileType, fileStatus, dataSize, fileStructure, recordSize := 0, 0, 0, 0, 0, 0, 0;
    }

    /** The file descriptor case of the property switch. */
    method SetDescriptor(v: seq<byte>) returns (ret: int)
      modifies this
      ensures Result(ret, Value()) == Descriptor(v, old(Value()))
    {
      if |v| < 2 {
        return EINVAL;
      }
      var fdbyte := v[0];
      if IsDf(fdbyte) {
        fileType := 2;
      } else if IsEf(fdbyte) {
        fileType, fileStatus := 4, 1;
        dataSize := (dataSize + 1) % 256;
        if fdbyte % 8 == 1 {
          fileStructure := 0;
        } else {
          if |v| < 5 {
            return EINVAL;
          }
          dataSize := (dataSize + 1) % 256;
          recordSize := v[3];
          if fdbyte % 8 == 6 {
            fileStructure := 3;
          } else if fdbyte % 8 == 2 {
            fileStructure := 1;
          } else {
            return EINVAL;
          }
        }
      } else {
        fileType := 0;
      }
      ret := 0;
    }

    /** The property switch. */
    method SetProperty(t: Tlv) returns (ret: int)
      modifies this
      ensures Result(ret, Value()) == Apply(t, old(Value()))
    {
      if t.tag == TAG_SIZE {
        if |t.value| != 2 {
          return ENOTSUP;
        }
        fileSize := t.value[0] as int * 256 + t.value[1];
      } else if t.tag == TAG_ID {
        if |t.value| != 2 {
          return EINVAL;
        }
        fileId := t.value[0] as int * 256 + t.value[1];
      } else if t.tag == TAG_DESCRIPTOR {
        ret := SetDescriptor(t.value);
        return;
      }
      ret := 0;
    }

    /** fcp_to_ts_51011 */
    method FcpToTs51011(mem: Memory) returns (ret: int)
      modifies this
      ensures Result(ret, Value()) == Convert(mem, old(Value()))
    {
      hide TlvAt, Apply, TlvsAt, Fold, Value;
      var fcp := ParseTlv(mem, 0);
      if fcp.tag != TAG_TEMPLATE {
        return EINVAL;
      }
      Clear();
      var data, end := 4, Width(fcp);
      ret := 0;
      while data < end
        invariant ret == 0
        invariant Fold(TlvsAt(mem, data, end), Value()) == Fold(TlvsAt(mem, 4, end), ZERO)
        decreases end - data
      {
        var tlv := ParseTlv(mem, data);
        FoldStep(mem, data, end, Value());
        ret := SetProperty(tlv);
        if ret < 0 {
          return;
        }
        data := data + Width(tlv);
      }
      FoldEnd(mem, data, end, Value());
    }
  }

  lemma FoldStep(mem: Memory, at: nat, end: nat, out: Resp)
    requires at < end
    ensures var t := TlvAt(mem, at); var r := Apply(t, out);
      && r.ret <= 0
      && Fold(TlvsAt(mem, at, end), out) == if r.ret < 0 then r else Fold(TlvsAt(mem, at + Width(t), end), r.out)
  {
    hide TlvAt;
    var rest := TlvsAt(mem, at + Width(TlvAt(mem, at)), end);
    assert ([TlvAt(mem, at)] + rest)[1..] == rest;
  }

  lemma FoldEnd(mem: Memory, at: nat, end: nat, out: Resp)
    requires at >= end
    ensures Fold(TlvsAt(mem, at, end), out) == Result(0, out)
  {
  }

  /** parseTlv, and TLV_DATA for all of the value. */
  method ParseTlv(mem: Memory, at: nat) returns (tlv: Tlv)
    ensures tlv == TlvAt(mem, at)
  {
    var stream := at;
    var tag := Octet(mem, stream);
    stream := stream + 2;
    var size := Octet(mem, stream);
    stream := stream + 2;
    tlv := Tlv(tag, Octets(mem, stream, size));
  }
}
