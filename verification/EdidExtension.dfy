/**
  The CEA extension walker (CEA-861-D section 7.5): data blocks from offset 4 to the offset d of the
  detailed timings, then the detailed timings, whose modes are appended to the mode list.

  The cursor is one octet wide and wraps.  The extension is part of a longer buffer, which is here a
  total function: where the walker reads behind the block, any octet may stand.
 */
module EdidExtension {
  import opened Sequences
  import opened Wrappers

  type Memory = nat -> byte

  const EDID_LENGTH := 128
  const TIMING_SIZE := 18
  const MAX_MODES := 50

  const AUDIO := 1
  const VIDEO := 2
  const VENDOR := 3
  const SPEAKER := 4

  /** A standard mode by its VIC, or a detailed timing by its octets. */
  datatype Mode = Cea(vic: nat) | Detailed(octets: seq<byte>)

  /** The entries of mxc_cea_mode that are filled in. */
  const KNOWN_VICS: set<int> := {1, 2, 3, 4, 5, 6, 7, 8, 9, 14, 15, 16, 17, 18, 19, 20, 23, 24,
                                 29, 30, 31, 32, 33, 34, 41, 47, 48}

  function U8(n: nat): byte { n % 256 }
  function TagCode(header: byte): nat { header / 32 }
  function BlkLen(header: byte): nat { header % 32 }

  /** How far the case of a block moves the cursor: the loops over triples round up. */
  function Span(header: byte): (r: nat)
    ensures r <= 33
  {
    if TagCode(header) in {AUDIO, SPEAKER} then (BlkLen(header) + 2) / 3 * 3 else BlkLen(header)
  }

  function Next(mem: Memory, index: byte): byte { U8(index + Span(mem(index)) + 1) }

  // ---------- when the walk ends ----------

  /** The cursor after n turns of the loop. */
  function Position(mem: Memory, d: byte, index: byte, n: nat): byte
    decreases n
  {
    if n == 0 || index >= d then index else Position(mem, d, Next(mem, index), n - 1)
  }

  ghost predicate Ends(mem: Memory, d: byte)
  {
    exists n :: Position(mem, d, 4, n) >= d
  }

  const LAST_SAFE := 222

  lemma {:induction false} SafeEnds(mem: Memory, d: byte, index: byte)
    requires d <= LAST_SAFE
    ensures Position(mem, d, index, d) >= d
  {
    SafeEndsIn(mem, d, index, d);
  }

  lemma {:induction false} SafeEndsIn(mem: Memory, d: byte, index: byte, n: nat)
    requires d <= LAST_SAFE && n + index >= d
    ensures Position(mem, d, index, n) >= d
    decreases n
  {
    if n > 0 && index < d {
      SafeEndsIn(mem, d, Next(mem, index), n - 1);
    }
  }

  /** A speaker allocation block of 31 octets whose header is the last octet before d, which throws
      the cursor back; no other octet between 3 and d says anything. */
  function Trap(d: byte): Memory
  {
    (i: nat) => if i == 0 then 2 else if i == 1 then 3 else if i == 2 then d
                else if i == d - 1 then 0x9F else 0
  }

  lemma {:induction false} TrapHolds(d: byte, index: byte, n: nat)
    requires d > LAST_SAFE && index < d
    ensures Position(Trap(d), d, index, n) < d
    decreases n
  {
    if n > 0 {
      TrapTurn(d, index);
      TrapHolds(d, Next(Trap(d), index), n - 1);
    }
  }

  lemma SpansInTrap()
    ensures Span(0) == 0 && Span(2) == 2 && Span(3) == 3 && Span(0x9F) == 33
  {
  }

  lemma TrapTurn(d: byte, index: byte)
    requires d > LAST_SAFE && index < d
    ensures Next(Trap(d), index) < d
  {
    SpansInTrap();
    var header := Trap(d)(index);
    assert header == (if index == 0 then 2 else if index == 1 then 3 else if index == 2 then d
                      else if index == d - 1 then 0x9F else 0);
    hide Span, Trap;
    if index == d - 1 {
      assert U8(d - 1 + 33 + 1) == d + 33 - 256;
    }
  }

  /** The walk ends whatever the extension contains if and only if d is at most 222. */
  lemma EndsExactly(d: byte)
    ensures (forall mem: Memory :: mem(0) == 2 && mem(1) == 3 && mem(2) == d ==> Ends(mem, d)) <==> d <= LAST_SAFE
  {
    if d <= LAST_SAFE {
      forall mem: Memory ensures Ends(mem, d) {
        SafeEnds(mem, d, 4);
      }
    } else {
      forall n ensures Position(Trap(d), d, 4, n) < d {
        TrapHolds(d, 4, n);
      }
      assert Trap(d)(0) == 2 && Trap(d)(1) == 3 && Trap(d)(2) == d;
    }
  }

  // ---------- what the walk computes ----------

  /** The fields of struct mxc_edid_cfg modelled here. */
  datatype Cfg = Cfg(underscan: bool, basicAudio: bool, ycbcr444: bool, ycbcr422: bool,
                     hdmiCap: bool, physicalAddress: (int, int, int, int), audio: Audio, speakerAlloc: byte)

  /** What the LPCM descriptors of an audio block offer: the most channels, and all rates and sizes. */
  datatype Audio = Audio(maxChannels: nat, sampleRates: nat, sampleSizes: nat)

  const NO_AUDIO := Audio(0, 0, 0)

  datatype Walk = Walk(index: byte, modes: seq<Mode>, cfg: Cfg)

  function KnownMode(octet: byte): seq<Mode>
  {
    if octet % 128 in KNOWN_VICS then [Cea(octet % 128)] else []
  }

  /** The modes of the n descriptors behind the cursor. */
  function VideoModes(mem: Memory, index: byte, n: nat): seq<Mode>
    decreases n
  {
    if n == 0 then [] else KnownMode(mem(U8(index + 1))) + VideoModes(mem, U8(index + 1), n - 1)
  }

  function Vendor(mem: Memory, index: byte, cfg: Cfg): Cfg
  {
    var a, b := mem(index + 4), mem(index + 5);
    cfg.(hdmiCap := cfg.hdmiCap || (mem(index + 1) == 0x03 && mem(index + 2) == 0x0C && mem(index + 3) == 0x00),
         physicalAddress := (a / 16, a % 16, b / 16, b % 16))
  }

  const LPCM := 1

  /** The bitwise or. */
  function Or(a: nat, b: nat): nat
  {
    if a == 0 && b == 0 then 0 else (if a % 2 == 1 || b % 2 == 1 then 1 else 0) + 2 * Or(a / 2, b / 2)
  }

  /** One short audio descriptor. */
  function Descriptor(byte1: byte, byte2: byte, byte3: byte, a: Audio): Audio
  {
    var channels := byte1 % 8 + 1;
    if byte1 / 8 != LPCM then a
    else Audio(if channels > a.maxChannels then channels else a.maxChannels,
               Or(a.sampleRates, byte2), Or(a.sampleSizes, byte3 % 8))
  }

  /** The audio loop: i of len octets done, and what they offer. */
  function Audios(mem: Memory, index: byte, i: nat, len: nat, a: Audio): Audio
    decreases len - i
  {
    if i >= len then a
    else Audios(mem, U8(index + 3), i + 3, len, Descriptor(mem(index + 1), mem(index + 2), mem(index + 3), a))
  }

  /** The speaker loop. */
  function Speakers(mem: Memory, index: byte, i: nat, len: nat, alloc: byte): byte
    decreases len - i
  {
    if i >= len then alloc else Speakers(mem, U8(index + 3), i + 3, len, mem(index + 1))
  }

  /** One turn of the loop over the data blocks. */
  function Turn(mem: Memory, w: Walk): (r: Walk)
    ensures r.index == Next(mem, w.index)
  {
    var tag, len := TagCode(mem(w.index)), BlkLen(mem(w.index));
    var next := w.(index := Next(mem, w.index));
    if tag == VIDEO then next.(modes := w.modes + VideoModes(mem, w.index, len))
    else if tag == VENDOR then next.(cfg := Vendor(mem, w.index, w.cfg))
    else if tag == AUDIO then next.(cfg := w.cfg.(audio := Audios(mem, w.index, 0, len, NO_AUDIO)))
    else if tag == SPEAKER then next.(cfg := w.cfg.(speakerAlloc := Speakers(mem, w.index, 0, len, w.cfg.speakerAlloc)))
    else next
  }

  function WalkBlocks(mem: Memory, d: byte, w: Walk): (r: Walk)
    requires d <= LAST_SAFE
    decreases d - w.index
  {
    if w.index >= d then w else WalkBlocks(mem, d, Turn(mem, w))
  }

  function Octets(mem: Memory, at: nat, n: nat): seq<byte>
  {
    seq(n, i requires 0 <= i < n => mem(at + i))
  }

  /** The detailed timings from index on, as far as they are filled in. */
  function Timings(mem: Memory, index: nat): seq<Mode>
    decreases EDID_LENGTH - index
  {
    if index >= EDID_LENGTH - TIMING_SIZE then []
    else
      (if mem(index) == 0 && mem(index + 1) == 0 then [] else [Detailed(Octets(mem, index, TIMING_SIZE))])
        + Timings(mem, index + TIMING_SIZE)
  }

  function Flags(mem: Memory, cfg: Cfg): Cfg
  {
    if mem(1) < 2 then cfg
    else
      var f := mem(3);
      cfg.(underscan := f / 128 == 1, basicAudio := f / 64 % 2 == 1, ycbcr444 := f / 32 % 2 == 1,
           ycbcr422 := f / 16 % 2 == 1)
  }

  function WalkAll(mem: Memory, cfg: Cfg): Walk
    requires mem(2) <= LAST_SAFE
  {
    var w := Walk(4, [], Flags(mem, cfg));
    if mem(1) >= 3 then WalkBlocks(mem, mem(2), w) else w
  }

  function NewModes(mem: Memory, cfg: Cfg): seq<Mode>
    requires mem(2) <= LAST_SAFE
  {
    WalkAll(mem, cfg).modes + Timings(mem, mem(2))
  }

  // ---------- a well-formed extension ----------

  datatype Block = Block(tag: nat, payload: seq<byte>)

  predicate Encodable(blocks: seq<Block>)
  {
    forall b <- blocks :: b.tag < 8 && |b.payload| < 32
  }

  function EncodeBlocks(blocks: seq<Block>): seq<byte>
    requires Encodable(blocks)
  {
    if blocks == [] then []
    else [32 * blocks[0].tag + |blocks[0].payload|] + blocks[0].payload + EncodeBlocks(blocks[1..])
  }

  /** The data blocks tile the octets from index to d. */
  ghost predicate Tiles(mem: Memory, index: nat, blocks: seq<Block>, d: nat)
  {
    Encodable(blocks) && index + |EncodeBlocks(blocks)| == d && Holds(mem, index, EncodeBlocks(blocks))
  }

  predicate Aligned(b: Block)
  {
    b.tag in {AUDIO, SPEAKER} ==> |b.payload| % 3 == 0
  }

  function Offsets(blocks: seq<Block>, at: nat): seq<nat>
  {
    if blocks == [] then [] else [at] + Offsets(blocks[1..], at + 1 + |blocks[0].payload|)
  }

  /** The positions of the cursor at the loop head. */
  function Visited(mem: Memory, d: byte, index: byte): seq<nat>
    requires d <= LAST_SAFE
    decreases d - index
  {
    if index >= d then [] else [index as nat] + Visited(mem, d, Next(mem, index))
  }

  function Vics(payload: seq<byte>): seq<Mode>
  {
    if payload == [] then [] else KnownMode(payload[0]) + Vics(payload[1..])
  }

  function BlockModes(blocks: seq<Block>): seq<Mode>
  {
    if blocks == [] then []
    else OwnModes(blocks[0]) + BlockModes(blocks[1..])
  }

  /** The three octets behind a header, whether or not they belong to its block. */
  predicate IdentifierAt(mem: Memory, header: nat)
  {
    mem(header + 1) == 0x03 && mem(header + 2) == 0x0C && mem(header + 3) == 0x00
  }

  /** Behind the header of some vendor specific block stands the HDMI identifier. */
  predicate AnyHdmi(mem: Memory, blocks: seq<Block>, at: nat)
    decreases |blocks|
  {
    blocks != [] && ((blocks[0].tag == VENDOR && IdentifierAt(mem, at))
                     || AnyHdmi(mem, blocks[1..], at + 1 + |blocks[0].payload|))
  }

  /** The HDMI registration identifier 00-0C-03, least significant octet first. */
  predicate HasHdmiId(b: Block)
  {
    b.tag == VENDOR && [0x03, 0x0C, 0x00] <= b.payload
  }

  /** The first of the blocks, and the others behind it. */
  lemma TilesFirst(mem: Memory, index: byte, blocks: seq<Block>, d: byte)
    requires Tiles(mem, index, blocks, d) && blocks != []
    ensures var b := blocks[0]; var next := index + 1 + |b.payload|;
      && index < d && next <= d && Tiles(mem, next, blocks[1..], d)
      && TagCode(mem(index)) == b.tag && BlkLen(mem(index)) == |b.payload|
      && Holds(mem, index + 1, b.payload)
  {
    var b, rest := blocks[0], EncodeBlocks(blocks[1..]);
    var all := EncodeBlocks(blocks);
    assert all == [32 * b.tag + |b.payload|] + b.payload + rest;
    assert all[0] == mem(index + 0);
    forall i | 0 <= i < |b.payload| ensures b.payload[i] == mem(index + 1 + i) {
      assert all[1 + i] == b.payload[i];
    }
    forall i | 0 <= i < |rest| ensures rest[i] == mem(index + 1 + |b.payload| + i) {
      assert all[1 + |b.payload| + i] == rest[i];
    }
  }

  lemma {:induction false} TiledVisits(mem: Memory, index: byte, blocks: seq<Block>, d: byte, w: Walk)
    requires d <= LAST_SAFE && Tiles(mem, index, blocks, d) && w.index == index
    ensures Visited(mem, d, index) == Offsets(blocks, index) && WalkBlocks(mem, d, w).index == d
      <==> forall b <- blocks :: Aligned(b)
    decreases |blocks|
  {
    if blocks != [] {
      var b, rest := blocks[0], blocks[1..];
      var header, next := index + 1 + |b.payload|, Next(mem, index);
      FirstVisit(mem, index, blocks, d);
      WalkStep(mem, d, w);
      AlignedCons(blocks);
      var visited, offsets := Visited(mem, d, next), Offsets(rest, header);
      assert rest != [] ==> offsets[0] == header;
      assert visited != [] ==> visited[0] == next;
      ConsEqual<nat>(index, visited, index, offsets);
      EndsBehind(mem, d, Turn(mem, w));
      hide *;
      if Aligned(b) {
        TiledVisits(mem, next, rest, d, Turn(mem, w));
      }
    }
  }

  lemma FirstVisit(mem: Memory, index: byte, blocks: seq<Block>, d: byte)
    requires d <= LAST_SAFE && Tiles(mem, index, blocks, d) && blocks != []
    ensures var b, rest := blocks[0], blocks[1..]; var header, next := index + 1 + |b.payload|, Next(mem, index);
      && index < d && header <= next && (next == header <==> Aligned(b)) && (rest == [] ==> header == d)
      && Tiles(mem, header, rest, d)
      && Visited(mem, d, index) == [index as nat] + Visited(mem, d, next)
      && Offsets(blocks, index) == [index as nat] + Offsets(rest, header)
  {
    assert LAST_SAFE == 222;
    hide *;
    TilesFirst(mem, index, blocks, d);
    NextOfBlock(mem, index, blocks[0]);
    if blocks[1..] == [] { TilesNothing(mem, index + 1 + |blocks[0].payload|, d); }
    VisitsFirst(mem, d, index, blocks);
  }

  lemma NextOfBlock(mem: Memory, index: byte, b: Block)
    requires TagCode(mem(index)) == b.tag && BlkLen(mem(index)) == |b.payload| && index + 1 + |b.payload| <= 222
    ensures var header := index + 1 + |b.payload|; header <= Next(mem, index) && (Next(mem, index) == header <==> Aligned(b))
  {
    U8Of(index + Span(mem(index)) + 1);
    hide U8, TagCode, BlkLen;
  }

  lemma TilesNothing(mem: Memory, index: nat, d: byte)
    requires Tiles(mem, index, [], d)
    ensures index == d
  {
  }

  lemma VisitsFirst(mem: Memory, d: byte, index: byte, blocks: seq<Block>)
    requires d <= LAST_SAFE && index < d && blocks != []
    ensures Visited(mem, d, index) == [index as nat] + Visited(mem, d, Next(mem, index))
    ensures Offsets(blocks, index) == [index as nat] + Offsets(blocks[1..], index + 1 + |blocks[0].payload|)
  {
    hide Next;
  }

  lemma AlignedCons(blocks: seq<Block>)
    requires blocks != []
    ensures (forall b <- blocks :: Aligned(b)) <==> Aligned(blocks[0]) && forall b <- blocks[1..] :: Aligned(b)
  {
    assert blocks == [blocks[0]] + blocks[1..];
  }

  lemma {:induction false} EndsBehind(mem: Memory, d: byte, w: Walk)
    requires d <= LAST_SAFE
    ensures WalkBlocks(mem, d, w).index >= w.index
    decreases d - w.index
  {
    hide *;
    if w.index < d {
      WalkStep(mem, d, w);
      EndsBehind(mem, d, Turn(mem, w));
    } else {
      WalkEnd(mem, d, w);
    }
  }

  function OwnModes(b: Block): seq<Mode>
  {
    if b.tag == VIDEO then Vics(b.payload) else []
  }

  /** What one turn does with a block that the cursor points at. */
  lemma TurnOnBlock(mem: Memory, blocks: seq<Block>, d: byte, w: Walk)
    requires d <= LAST_SAFE && Tiles(mem, w.index, blocks, d) && blocks != [] && Aligned(blocks[0])
    ensures Tiles(mem, Turn(mem, w).index, blocks[1..], d)
    ensures Turn(mem, w).modes == w.modes + OwnModes(blocks[0])
    ensures Turn(mem, w).index == w.index + 1 + |blocks[0].payload|
    ensures Turn(mem, w).cfg.hdmiCap
         == (w.cfg.hdmiCap || (blocks[0].tag == VENDOR && IdentifierAt(mem, w.index)))
    ensures w.index < d && WalkBlocks(mem, d, w) == WalkBlocks(mem, d, Turn(mem, w))
  {
    hide *;
    FirstVisit(mem, w.index, blocks, d);
    TilesFirst(mem, w.index, blocks, d);
    VideoTurn(mem, w, blocks[0]);
    HdmiTurn(mem, w, blocks[0]);
    WalkStep(mem, d, w);
  }

  lemma VideoTurn(mem: Memory, w: Walk, b: Block)
    requires TagCode(mem(w.index)) == b.tag && BlkLen(mem(w.index)) == |b.payload|
    requires w.index + |b.payload| < 256 && Holds(mem, w.index + 1, b.payload)
    ensures Turn(mem, w).modes == w.modes + OwnModes(b)
  {
    hide TagCode, BlkLen, Vendor, Audios, Speakers;
    if b.tag == VIDEO {
      VideoPayload(mem, w.index, b.payload);
    }
  }

  lemma HdmiTurn(mem: Memory, w: Walk, b: Block)
    requires TagCode(mem(w.index)) == b.tag
    ensures Turn(mem, w).cfg.hdmiCap == (w.cfg.hdmiCap || (b.tag == VENDOR && IdentifierAt(mem, w.index)))
  {
    hide TagCode, BlkLen, VideoModes, Audios, Speakers;
  }

  lemma NoBlocks(mem: Memory, d: byte, w: Walk)
    requires d <= LAST_SAFE && Tiles(mem, w.index, [], d)
    ensures WalkBlocks(mem, d, w) == w && BlockModes([]) == []
  {
  }

  lemma BlockModesCons(blocks: seq<Block>)
    requires blocks != []
    ensures BlockModes(blocks) == OwnModes(blocks[0]) + BlockModes(blocks[1..])
  {
  }

  lemma {:induction false} TiledModes(mem: Memory, blocks: seq<Block>, d: byte, w: Walk)
    requires d <= LAST_SAFE && Tiles(mem, w.index, blocks, d) && forall b <- blocks :: Aligned(b)
    ensures WalkBlocks(mem, d, w).modes == w.modes + BlockModes(blocks)
    decreases |blocks|
  {
    hide *;
    if blocks == [] {
      NoBlocks(mem, d, w);
    } else {
      AlignedCons(blocks);
      TurnOnBlock(mem, blocks, d, w);
      BlockModesCons(blocks);
      TiledModes(mem, blocks[1..], d, Turn(mem, w));
      var own, rest := OwnModes(blocks[0]), BlockModes(blocks[1..]);
      assert w.modes + own + rest == w.modes + (own + rest);
    }
  }

  lemma {:induction false} TiledHdmi(mem: Memory, blocks: seq<Block>, d: byte, w: Walk)
    requires d <= LAST_SAFE && Tiles(mem, w.index, blocks, d) && forall b <- blocks :: Aligned(b)
    ensures WalkBlocks(mem, d, w).cfg.hdmiCap <==> w.cfg.hdmiCap || AnyHdmi(mem, blocks, w.index)
    decreases |blocks|
  {
    AnyHdmiUnfolds(mem, blocks, w.index);
    hide *;
    if blocks == [] {
      NoBlocks(mem, d, w);
    } else {
      AlignedCons(blocks);
      TurnOnBlock(mem, blocks, d, w);
      TiledHdmi(mem, blocks[1..], d, Turn(mem, w));
    }
  }

  lemma AnyHdmiUnfolds(mem: Memory, blocks: seq<Block>, at: nat)
    ensures blocks == [] ==> !AnyHdmi(mem, blocks, at)
    ensures blocks != [] ==>
      var own := blocks[0].tag == VENDOR && IdentifierAt(mem, at);
      AnyHdmi(mem, blocks, at) == (own || AnyHdmi(mem, blocks[1..], at + 1 + |blocks[0].payload|))
  {
  }

  lemma {:induction false} AnyHdmiPayload(mem: Memory, blocks: seq<Block>, at: byte, d: byte)
    requires Tiles(mem, at, blocks, d) && forall b <- blocks :: b.tag == VENDOR ==> |b.payload| >= 3
    ensures AnyHdmi(mem, blocks, at) <==> exists b <- blocks :: HasHdmiId(b)
    decreases |blocks|
  {
    hide Tiles, IdentifierAt, HasHdmiId, EncodeBlocks, TagCode, BlkLen;
    if blocks != [] {
      var b := blocks[0];
      TilesFirst(mem, at, blocks, d);
      if b.tag == VENDOR { IdentifierInPayload(mem, at, b); } else { NoIdentifier(b); }
      AnyHdmiPayload(mem, blocks[1..], at + 1 + |b.payload|, d);
      assert blocks == [b] + blocks[1..];
      assert (exists c <- blocks :: HasHdmiId(c)) <==> HasHdmiId(b) || exists c <- blocks[1..] :: HasHdmiId(c);
    }
  }

  lemma IdentifierInPayload(mem: Memory, at: byte, b: Block)
    requires b.tag == VENDOR && |b.payload| >= 3 && Holds(mem, at + 1, b.payload)
    ensures IdentifierAt(mem, at) <==> HasHdmiId(b)
  {
    assert b.payload[0] == mem(at + 1 + 0) && b.payload[1] == mem(at + 1 + 1) && b.payload[2] == mem(at + 1 + 2);
  }

  lemma NoIdentifier(b: Block)
    requires b.tag != VENDOR
    ensures !HasHdmiId(b)
  {
  }

  lemma {:induction false} VideoPayload(mem: Memory, index: byte, payload: seq<byte>)
    requires index + |payload| < 256 && Holds(mem, index + 1, payload)
    ensures VideoModes(mem, index, |payload|) == Vics(payload)
    decreases |payload|
  {
    if payload != [] {
      VideoStep(mem, index, |payload|);
      assert Vics(payload) == KnownMode(payload[0]) + Vics(payload[1..]);
      U8Of(index + 1);
      hide *;
      HoldsTail(mem, index + 1, payload);
      VideoPayload(mem, index + 1, payload[1..]);
    }
  }

  lemma VideoStep(mem: Memory, index: byte, n: nat)
    requires n > 0
    ensures var next := U8(index + 1);
      VideoModes(mem, index, n) == KnownMode(mem(next)) + VideoModes(mem, next, n - 1)
  {
  }

  lemma U8Of(n: byte)
    ensures U8(n) == n
  {
  }

  lemma HoldsTail(mem: Memory, at: nat, octets: seq<byte>)
    requires Holds(mem, at, octets) && octets != []
    ensures octets[0] == mem(at) && Holds(mem, at + 1, octets[1..])
  {
    assert octets[0] == mem(at + 0);
    forall i | 0 <= i < |octets| - 1 ensures octets[1..][i] == mem(at + 1 + i) {
      assert octets[1 + i] == mem(at + (1 + i));
    }
  }

  /** When data blocks tile the octets from 4 to d, the cursor visits exactly their headers and ends
      at d if and only if the lengths of the audio and speaker blocks are multiples of three. */
  lemma VisitsHeaders(mem: Memory, blocks: seq<Block>, cfg: Cfg)
    requires mem(1) >= 3 && mem(2) <= LAST_SAFE && Tiles(mem, 4, blocks, mem(2))
    ensures Visited(mem, mem(2), 4) == Offsets(blocks, 4) && WalkAll(mem, cfg).index == mem(2)
      <==> forall b <- blocks :: Aligned(b)
  {
    hide *;
    WalkAllIs(mem, cfg);
    TiledVisits(mem, 4, blocks, mem(2), Walk(4, [], Flags(mem, cfg)));
  }

  lemma WalkAllIs(mem: Memory, cfg: Cfg)
    requires mem(1) >= 3 && mem(2) <= LAST_SAFE
    ensures WalkAll(mem, cfg) == WalkBlocks(mem, mem(2), Walk(4, [], Flags(mem, cfg)))
    ensures NewModes(mem, cfg) == WalkAll(mem, cfg).modes + Timings(mem, mem(2))
  {
    hide WalkBlocks, Flags, Timings;
  }

  /** And then the new modes are the known VICs of the video blocks in order, and the timings. */
  lemma ModesInOrder(mem: Memory, blocks: seq<Block>, cfg: Cfg)
    requires mem(1) >= 3 && mem(2) <= LAST_SAFE && Tiles(mem, 4, blocks, mem(2))
    requires forall b <- blocks :: Aligned(b)
    ensures NewModes(mem, cfg) == BlockModes(blocks) + Timings(mem, mem(2))
  {
    hide *;
    WalkAllIs(mem, cfg);
    TiledModes(mem, blocks, mem(2), Walk(4, [], Flags(mem, cfg)));
    AppendNothing(BlockModes(blocks));
  }

  /** A display counts as HDMI if and only if the HDMI identifier stands behind the header of a vendor
      specific block; it is that block's own identifier when no such block is shorter than three. */
  lemma HdmiExactly(mem: Memory, blocks: seq<Block>, cfg: Cfg)
    requires mem(1) >= 3 && mem(2) <= LAST_SAFE && Tiles(mem, 4, blocks, mem(2))
    requires forall b <- blocks :: Aligned(b)
    ensures WalkAll(mem, cfg).cfg.hdmiCap <==> cfg.hdmiCap || AnyHdmi(mem, blocks, 4)
    ensures (forall b <- blocks :: b.tag == VENDOR ==> |b.payload| >= 3) ==>
      (AnyHdmi(mem, blocks, 4) <==> exists b <- blocks :: HasHdmiId(b))
  {
    FlagsOnly(mem, cfg);
    hide *;
    WalkAllIs(mem, cfg);
    TiledHdmi(mem, blocks, mem(2), Walk(4, [], Flags(mem, cfg)));
    if forall b <- blocks :: b.tag == VENDOR ==> |b.payload| >= 3 {
      AnyHdmiPayload(mem, blocks, 4, mem(2));
    }
  }

  lemma FlagsOnly(mem: Memory, cfg: Cfg)
    ensures Flags(mem, cfg).hdmiCap == cfg.hdmiCap
  {
  }

  // ---------- how many modes there are ----------

  function VideoOctets(blocks: seq<Block>): nat
  {
    if blocks == [] then 0 else (if blocks[0].tag == VIDEO then |blocks[0].payload| else 0) + VideoOctets(blocks[1..])
  }

  lemma {:induction false} VicsBounded(payload: seq<byte>)
    ensures |Vics(payload)| <= |payload|
    ensures (forall v <- payload :: v % 128 in KNOWN_VICS) ==> |Vics(payload)| == |payload|
  {
    if payload != [] {
      VicsBounded(payload[1..]);
    }
  }

  lemma {:induction false} BlockModesBounded(blocks: seq<Block>)
    ensures |BlockModes(blocks)| <= VideoOctets(blocks)
  {
    if blocks != [] {
      VicsBounded(blocks[0].payload);
      BlockModesBounded(blocks[1..]);
    }
  }

  lemma {:induction false} TimingsBounded(mem: Memory, index: nat)
    ensures |Timings(mem, index)| <= (if index < EDID_LENGTH - TIMING_SIZE then (127 - index) / TIMING_SIZE else 0)
    decreases EDID_LENGTH - index
  {
    if index < EDID_LENGTH - TIMING_SIZE {
      TimingsBounded(mem, index + TIMING_SIZE);
    }
  }

  /** There are no more new modes than octets in the video blocks and room for timings. */
  lemma ModesBounded(mem: Memory, blocks: seq<Block>, cfg: Cfg)
    requires mem(1) >= 3 && mem(2) <= LAST_SAFE && Tiles(mem, 4, blocks, mem(2))
    requires forall b <- blocks :: Aligned(b)
    ensures |NewModes(mem, cfg)| <= VideoOctets(blocks)
      + (if mem(2) < EDID_LENGTH - TIMING_SIZE then (127 - mem(2)) / TIMING_SIZE else 0)
  {
    hide *;
    ModesInOrder(mem, blocks, cfg);
    BlockModesBounded(blocks);
    TimingsBounded(mem, mem(2));
  }

  // ---------- what the blocks say ----------

  predicate BitSet(v: nat, bit: nat)
    decreases bit
  {
    if bit == 0 then v % 2 == 1 else BitSet(v / 2, bit - 1)
  }

  lemma {:induction false} OrBits(a: nat, b: nat, bit: nat)
    ensures BitSet(Or(a, b), bit) <==> BitSet(a, bit) || BitSet(b, bit)
    decreases bit
  {
    hide Or;
    OrIs(a, b);
    if bit > 0 {
      OrBits(a / 2, b / 2, bit - 1);
    }
  }

  lemma OrIs(a: nat, b: nat)
    ensures Or(a, b) % 2 == 1 <==> a % 2 == 1 || b % 2 == 1
    ensures Or(a, b) / 2 == Or(a / 2, b / 2)
  {
    if a == 0 && b == 0 {
      assert Or(0, 0) == 0 && a / 2 == 0 && b / 2 == 0;
    } else {
      var low, rest := if a % 2 == 1 || b % 2 == 1 then 1 else 0, Or(a / 2, b / 2);
      assert Or(a, b) == low + 2 * rest;
      hide Or;
    }
  }

  /** Descriptor i of an audio block with its header at index is an LPCM one: a descriptor is three octets,
      the last one may be cut short by the length, and the format is in bits 3 to 6 of the first octet. */
  predicate IsLpcm(mem: Memory, index: nat, len: nat, i: nat)
  {
    3 * i < len && mem(index + 3 * i + 1) / 8 == 1
  }

  /** Some LPCM descriptor from number from on offers that many channels, or this rate, or this size. */
  ghost predicate HasChannels(mem: Memory, index: nat, len: nat, from: nat, n: nat)
  {
    exists i: nat :: i >= from && IsLpcm(mem, index, len, i) && mem(index + 3 * i + 1) % 8 + 1 == n
  }

  ghost predicate HasRate(mem: Memory, index: nat, len: nat, from: nat, bit: nat)
  {
    exists i: nat :: i >= from && IsLpcm(mem, index, len, i) && BitSet(mem(index + 3 * i + 2), bit)
  }

  ghost predicate HasSize(mem: Memory, index: nat, len: nat, from: nat, bit: nat)
  {
    exists i: nat :: i >= from && IsLpcm(mem, index, len, i) && BitSet(mem(index + 3 * i + 3) % 8, bit)
  }

  /** What an audio block offers: the largest number of channels of an LPCM descriptor, and every rate and
      every size of one, by the bits. */
  lemma AudioExactly(mem: Memory, index: byte, len: nat, bit: nat)
    requires index + len + 2 < 256
    ensures
      var a := Audios(mem, index, 0, len, NO_AUDIO);
      && (forall n: nat :: HasChannels(mem, index, len, 0, n) ==> n <= a.maxChannels)
      && (a.maxChannels == 0 || HasChannels(mem, index, len, 0, a.maxChannels))
      && (BitSet(a.sampleRates, bit) <==> HasRate(mem, index, len, 0, bit))
      && (BitSet(a.sampleSizes, bit) <==> HasSize(mem, index, len, 0, bit))
  {
    ZeroBits(bit);
    AudiosGather(mem, index, 0, len, NO_AUDIO, bit);
    hide *;
  }

  lemma {:induction false} ZeroBits(bit: nat)
    ensures !BitSet(0, bit)
  {
    if bit > 0 { ZeroBits(bit - 1); }
  }

  /** From descriptor number i on. */
  lemma {:induction false} AudiosGather(mem: Memory, index: nat, i: nat, len: nat, a: Audio, bit: nat)
    requires index + len + 2 < 256 && (i == 0 || 3 * i < len + 3)
    ensures index + 3 * i < 256
    ensures
      var r := Audios(mem, index + 3 * i, 3 * i, len, a);
      && (forall n: nat :: HasChannels(mem, index, len, i, n) ==> n <= r.maxChannels) && a.maxChannels <= r.maxChannels
      && (r.maxChannels == a.maxChannels || HasChannels(mem, index, len, i, r.maxChannels))
      && (BitSet(r.sampleRates, bit) <==> BitSet(a.sampleRates, bit) || HasRate(mem, index, len, i, bit))
      && (BitSet(r.sampleSizes, bit) <==> BitSet(a.sampleSizes, bit) || HasSize(mem, index, len, i, bit))
    decreases len + 3 - 3 * i
  {
    hide *;
    FromNext(mem, index, len, i, bit);
    if 3 * i < len {
      var next := NextDescriptor(mem, index, i, len, a, bit);
      AudiosGather(mem, index, i + 1, len, next, bit);
    } else {
      AudiosEnd(mem, index + 3 * i, 3 * i, len, a);
    }
  }

  /** What the loop has gathered after one more descriptor. */
  lemma NextDescriptor(mem: Memory, index: nat, i: nat, len: nat, a: Audio, bit: nat) returns (next: Audio)
    requires index + len + 2 < 256 && 3 * i < len
    ensures Audios(mem, index + 3 * i, 3 * i, len, a) == Audios(mem, index + 3 * (i + 1), 3 * (i + 1), len, next)
    ensures
      var lpcm, n := IsLpcm(mem, index, len, i), mem(index + 3 * i + 1) % 8 + 1;
      && next.maxChannels == (if lpcm && n > a.maxChannels then n else a.maxChannels)
      && (BitSet(next.sampleRates, bit) <==>
            BitSet(a.sampleRates, bit) || (lpcm && BitSet(mem(index + 3 * i + 2), bit)))
      && (BitSet(next.sampleSizes, bit) <==>
            BitSet(a.sampleSizes, bit) || (lpcm && BitSet(mem(index + 3 * i + 3) % 8, bit)))
  {
    hide Audios, BitSet, Descriptor, U8;
    var at := index + 3 * i;
    next := Descriptor(mem(at + 1), mem(at + 2), mem(at + 3), a);
    AudiosStep(mem, at, 3 * i, len, a);
    U8Of(at + 3);
    DescriptorGives(mem(at + 1), mem(at + 2), mem(at + 3), a, bit);
  }

  lemma DescriptorGives(byte1: byte, byte2: byte, byte3: byte, a: Audio, bit: nat)
    ensures
      var r, lpcm := Descriptor(byte1, byte2, byte3, a), byte1 / 8 == 1;
      && r.maxChannels == (if lpcm && byte1 % 8 + 1 > a.maxChannels then byte1 % 8 + 1 else a.maxChannels)
      && (BitSet(r.sampleRates, bit) <==> BitSet(a.sampleRates, bit) || (lpcm && BitSet(byte2, bit)))
      && (BitSet(r.sampleSizes, bit) <==> BitSet(a.sampleSizes, bit) || (lpcm && BitSet(byte3 % 8, bit)))
  {
    OrBits(a.sampleRates, byte2, bit);
    OrBits(a.sampleSizes, byte3 % 8, bit);
    hide BitSet, Or;
  }

  /** A descriptor and those behind it. */
  lemma FromNext(mem: Memory, index: nat, len: nat, i: nat, bit: nat)
    ensures forall n: nat :: HasChannels(mem, index, len, i, n) <==>
      (IsLpcm(mem, index, len, i) && n == mem(index + 3 * i + 1) % 8 + 1) || HasChannels(mem, index, len, i + 1, n)
    ensures HasRate(mem, index, len, i, bit) <==>
      (IsLpcm(mem, index, len, i) && BitSet(mem(index + 3 * i + 2), bit)) || HasRate(mem, index, len, i + 1, bit)
    ensures HasSize(mem, index, len, i, bit) <==>
      (IsLpcm(mem, index, len, i) && BitSet(mem(index + 3 * i + 3) % 8, bit)) || HasSize(mem, index, len, i + 1, bit)
    ensures 3 * i >= len ==>
      (forall n: nat :: !HasChannels(mem, index, len, i, n)) && !HasRate(mem, index, len, i, bit) && !HasSize(mem, index, len, i, bit)
  {
    hide BitSet;
    forall n: nat ensures HasChannels(mem, index, len, i, n) <==>
      (IsLpcm(mem, index, len, i) && n == mem(index + 3 * i + 1) % 8 + 1) || HasChannels(mem, index, len, i + 1, n)
    {
    }
  }

  /** The speaker allocation is the first octet of the last triple. */
  lemma {:induction false} SpeakersExactly(mem: Memory, index: nat, i: nat, len: nat, alloc: byte)
    requires index + len + 2 < 256 && i % 3 == 0 && i < len
    ensures index + i < 256
    ensures Speakers(mem, index + i, i, len, alloc) == mem(index + (len - 1) / 3 * 3 + 1)
    decreases len - i
  {
    U8Of(index + i + 3);
    if i + 3 < len {
      SpeakersExactly(mem, index, i + 3, len, mem(index + i + 1));
    } else {
      assert (len - 1) / 3 * 3 == i;
    }
  }

  /** The physical address: four digits, two to an octet, the high one first. */
  lemma AddressDigits(mem: Memory, index: byte, cfg: Cfg)
    ensures
      var (a, b, c, d) := Vendor(mem, index, cfg).physicalAddress;
      && 0 <= a < 16 && 0 <= b < 16 && 0 <= c < 16 && 0 <= d < 16
      && mem(index + 4) == 16 * a + b && mem(index + 5) == 16 * c + d
  {
  }

  /** What the flags of the header say, from revision 2 on: they are the four high bits of octet 3. */
  lemma FlagsAre(mem: Memory, cfg: Cfg)
    ensures
      var r := Flags(mem, cfg);
      if mem(1) < 2 then r == cfg
      else
        && mem(3) == 128 * One(r.underscan) + 64 * One(r.basicAudio) + 32 * One(r.ycbcr444) + 16 * One(r.ycbcr422) + mem(3) % 16
        && r.hdmiCap == cfg.hdmiCap && r.physicalAddress == cfg.physicalAddress
        && r.audio == cfg.audio && r.speakerAlloc == cfg.speakerAlloc
  {
    HighBits(mem(3));
  }

  lemma HighBits(f: byte)
    ensures f == 128 * (f / 128) + 64 * (f / 64 % 2) + 32 * (f / 32 % 2) + 16 * (f / 16 % 2) + f % 16
    ensures f / 128 <= 1
  {
    var a, b, c, d: nat := f / 16, f / 32, f / 64, f / 128;
    assert b == a / 2 && c == b / 2 && d == c / 2;
    hide *;
    assert f == 16 * a + f % 16;
    assert a == 2 * b + a % 2;
    assert b == 2 * c + b % 2;
    assert c == 2 * d + c % 2;
  }

  function One(b: bool): nat { if b then 1 else 0 }

  /** Before revision 3 an extension has no data blocks, and before revision 2 no flags. */
  lemma OldRevision(mem: Memory, cfg: Cfg)
    requires mem(1) < 3 && mem(2) <= LAST_SAFE
    ensures NewModes(mem, cfg) == Timings(mem, mem(2)) && WalkAll(mem, cfg).cfg == Flags(mem, cfg)
  {
    AppendNothing(Timings(mem, mem(2)));
    hide Timings, Flags, WalkBlocks;
  }

  /** The header of the last block with this tag that is at least so long, the first block's being at at. */
  function LastBlock(blocks: seq<Block>, at: nat, tag: nat, least: nat): Option<nat>
  {
    if blocks == [] then None
    else
      var later := LastBlock(blocks[1..], at + 1 + |blocks[0].payload|, tag, least);
      if later.Some? then later else if blocks[0].tag == tag && |blocks[0].payload| >= least then Some(at) else None
  }

  /** What the blocks leave of the configuration c: the audio of the last audio block, the first octet of
      the last triple of the last speaker block, and the address behind the last vendor block's identifier. */
  ghost predicate SaidBy(mem: Memory, blocks: seq<Block>, at: nat, c: Cfg, r: Cfg)
  {
    && r.underscan == c.underscan && r.basicAudio == c.basicAudio && r.ycbcr444 == c.ycbcr444 && r.ycbcr422 == c.ycbcr422
    && (match LastBlock(blocks, at, 1, 0)
        case None => r.audio == c.audio
        case Some(o) => o < 256 && r.audio == Audios(mem, o, 0, BlkLen(mem(o)), NO_AUDIO))
    && (match LastBlock(blocks, at, 4, 1)
        case None => r.speakerAlloc == c.speakerAlloc
        case Some(o) => BlkLen(mem(o)) > 0 && r.speakerAlloc == mem(o + (BlkLen(mem(o)) - 1) / 3 * 3 + 1))
    && (match LastBlock(blocks, at, 3, 0)
        case None => r.physicalAddress == c.physicalAddress
        case Some(o) => r.physicalAddress == (mem(o + 4) / 16, mem(o + 4) % 16, mem(o + 5) / 16, mem(o + 5) % 16))
  }

  /** What a well-formed extension of revision 3 says besides its modes. */
  lemma ConfigInOrder(mem: Memory, blocks: seq<Block>, cfg: Cfg)
    requires mem(1) >= 3 && mem(2) <= LAST_SAFE && Tiles(mem, 4, blocks, mem(2))
    requires forall b <- blocks :: Aligned(b)
    ensures SaidBy(mem, blocks, 4, Flags(mem, cfg), WalkAll(mem, cfg).cfg)
  {
    hide *;
    WalkAllIs(mem, cfg);
    TiledConfig(mem, blocks, mem(2), Walk(4, [], Flags(mem, cfg)));
  }

  lemma {:induction false} TiledConfig(mem: Memory, blocks: seq<Block>, d: byte, w: Walk)
    requires d <= LAST_SAFE && Tiles(mem, w.index, blocks, d) && forall b <- blocks :: Aligned(b)
    ensures SaidBy(mem, blocks, w.index, w.cfg, WalkBlocks(mem, d, w).cfg)
    decreases |blocks|
  {
    assert LAST_SAFE == 222;
    hide *;
    if blocks == [] {
      NoBlocks(mem, d, w);
      NothingSaid(mem, w.index, w.cfg);
    } else {
      AlignedCons(blocks);
      var w1 := ConfigOnBlock(mem, blocks, d, w);
      TiledConfig(mem, blocks[1..], d, w1);
      SaidByMore(mem, blocks, w.index, w1.index, w.cfg, w1.cfg, WalkBlocks(mem, d, w).cfg);
    }
  }

  lemma ConfigOnBlock(mem: Memory, blocks: seq<Block>, d: byte, w: Walk) returns (w1: Walk)
    requires d <= LAST_SAFE && Tiles(mem, w.index, blocks, d) && blocks != [] && Aligned(blocks[0])
    ensures Tiles(mem, w1.index, blocks[1..], d) && w1.index == w.index + 1 + |blocks[0].payload|
    ensures WalkBlocks(mem, d, w) == WalkBlocks(mem, d, w1)
    ensures SaidBy(mem, [blocks[0]], w.index, w.cfg, w1.cfg)
  {
    assert LAST_SAFE == 222;
    hide *;
    w1 := Turn(mem, w);
    TurnOnBlock(mem, blocks, d, w);
    TilesFirst(mem, w.index, blocks, d);
    ConfigTurn(mem, w, blocks[0]);
  }

  lemma NothingSaid(mem: Memory, at: nat, c: Cfg)
    ensures SaidBy(mem, [], at, c, c)
  {
  }

  /** One block that says what it says, and those behind it. */
  lemma SaidByMore(mem: Memory, blocks: seq<Block>, at: nat, next: nat, c: Cfg, c1: Cfg, r: Cfg)
    requires blocks != [] && SaidBy(mem, [blocks[0]], at, c, c1)
    requires next == at + 1 + |blocks[0].payload| && SaidBy(mem, blocks[1..], next, c1, r)
    ensures SaidBy(mem, blocks, at, c, r)
  {
    LastOfOne(blocks[0], at, 1, 0);
    LastOfOne(blocks[0], at, 3, 0);
    LastOfOne(blocks[0], at, 4, 1);
    LastOfMore(blocks, at, 1, 0);
    LastOfMore(blocks, at, 3, 0);
    LastOfMore(blocks, at, 4, 1);
    hide LastBlock, Audios, BlkLen;
  }

  lemma LastOfOne(b: Block, at: nat, tag: nat, least: nat)
    ensures LastBlock([b], at, tag, least) == if b.tag == tag && |b.payload| >= least then Some(at) else None
  {
    assert [b][1..] == [] && LastBlock([], at + 1 + |b.payload|, tag, least) == None;
  }

  lemma LastOfMore(blocks: seq<Block>, at: nat, tag: nat, least: nat)
    requires blocks != []
    ensures
      var later := LastBlock(blocks[1..], at + 1 + |blocks[0].payload|, tag, least);
      LastBlock(blocks, at, tag, least) ==
        if later.Some? then later else if blocks[0].tag == tag && |blocks[0].payload| >= least then Some(at) else None
  {
  }

  lemma ConfigTurn(mem: Memory, w: Walk, b: Block)
    requires TagCode(mem(w.index)) == b.tag && BlkLen(mem(w.index)) == |b.payload| && w.index + |b.payload| + 2 < 256
    ensures SaidBy(mem, [b], w.index, w.cfg, Turn(mem, w).cfg)
  {
    LastOfOne(b, w.index, 1, 0);
    LastOfOne(b, w.index, 3, 0);
    LastOfOne(b, w.index, 4, 1);
    if b.tag == SPEAKER && |b.payload| > 0 {
      SpeakersExactly(mem, w.index, 0, |b.payload|, w.cfg.speakerAlloc);
    }
    hide LastBlock, Audios, BlkLen, TagCode, Next;
  }

  /** A place for a timing counted from index: every 18 octets, before octet 110. */
  predicate Place(index: nat, at: nat)
  {
    index <= at < 110 && (at - index) % 18 == 0
  }

  ghost predicate Filled(mem: Memory, index: nat, at: nat)
  {
    Place(index, at) && !(mem(at) == 0 && mem(at + 1) == 0)
  }

  /** The timings are those of the places from index on whose first two octets are not both zero, in order,
      each with its 18 octets. */
  lemma {:induction false} TimingsExactly(mem: Memory, index: nat) returns (places: seq<nat>)
    ensures |places| == |Timings(mem, index)|
    ensures forall i, j :: 0 <= i < j < |places| ==> places[i] < places[j]
    ensures forall at: nat :: at in places <==> Filled(mem, index, at)
    ensures forall i :: 0 <= i < |places| ==> TimingAt(mem, Timings(mem, index)[i], places[i])
    decreases 110 - index
  {
    if index >= 110 {
      places := [];
    } else {
      var rest := TimingsExactly(mem, index + 18);
      var first := if mem(index) == 0 && mem(index + 1) == 0 then [] else [index];
      places := first + rest;
      forall at: nat ensures at in places <==> Filled(mem, index, at) {
        NextPlace(index, at);
        assert at in rest <==> Filled(mem, index + 18, at);
        assert at in first <==> at == index && !(mem(at) == 0 && mem(at + 1) == 0);
        assert at in places <==> at in first || at in rest;
      }
      forall at: nat | at in rest ensures at > index {
        NextPlace(index, at);
        assert Filled(mem, index + 18, at);
      }
      hide TimingAt, Place, Timings;
      TimingsIs(mem, index);
      FirstTimingAt(mem, index);
      Later(index, first, rest);
    }
  }

  ghost predicate TimingAt(mem: Memory, t: Mode, at: nat)
  {
    t.Detailed? && |t.octets| == 18 && forall j :: 0 <= j < 18 ==> t.octets[j] == mem(at + j)
  }

  lemma FirstTimingAt(mem: Memory, at: nat)
    ensures TimingAt(mem, Detailed(Octets(mem, at, TIMING_SIZE)), at)
  {
  }

  lemma TimingsIs(mem: Memory, index: nat)
    requires index < 110
    ensures Timings(mem, index) ==
      (if mem(index) == 0 && mem(index + 1) == 0 then [] else [Detailed(Octets(mem, index, TIMING_SIZE))])
        + Timings(mem, index + 18)
  {
  }

  lemma Later(index: nat, first: seq<nat>, rest: seq<nat>)
    requires first == [] || first == [index]
    requires forall i, j :: 0 <= i < j < |rest| ==> rest[i] < rest[j]
    requires forall at: nat :: at in rest ==> at > index
    ensures var places := first + rest; forall i, j :: 0 <= i < j < |places| ==> places[i] < places[j]
  {
    assert forall i :: 0 <= i < |rest| ==> rest[i] in rest;
  }

  lemma NextPlace(index: nat, at: nat)
    requires index < 110
    ensures Place(index, at) <==> at == index || Place(index + 18, at)
    ensures Place(index + 18, at) ==> at > index
  {
    if index < at < index + 18 {
      assert (at - index) % 18 == at - index;
    } else if at >= index + 18 {
      assert (at - index) % 18 == (at - (index + 18)) % 18;
    }
  }

  /** The new modes fit their buffer if and only if the known VICs of the video blocks and the
      timings that are filled in are together no more than 50. */
  lemma FitsExactly(mem: Memory, blocks: seq<Block>, cfg: Cfg)
    requires mem(1) >= 3 && mem(2) <= LAST_SAFE && Tiles(mem, 4, blocks, mem(2))
    requires forall b <- blocks :: Aligned(b)
    ensures |NewModes(mem, cfg)| <= 50 <==> |BlockModes(blocks)| + |Timings(mem, mem(2))| <= 50
  {
    hide *;
    ModesInOrder(mem, blocks, cfg);
  }

  /** A CEA extension of revision 3 that holds these data blocks and no timings. */
  function Extension(blocks: seq<Block>): Memory
    requires Encodable(blocks) && |EncodeBlocks(blocks)| <= LAST_SAFE - 4
  {
    var octets: seq<byte> := [2, 3, 4 + |EncodeBlocks(blocks)|, 0] + EncodeBlocks(blocks);
    (i: nat) => if i < |octets| then octets[i] else 0
  }

  lemma ExtensionTiles(blocks: seq<Block>)
    requires Encodable(blocks) && |EncodeBlocks(blocks)| <= LAST_SAFE - 4
    ensures var mem := Extension(blocks);
      mem(0) == 2 && mem(1) == 3 && mem(2) == 4 + |EncodeBlocks(blocks)| && Tiles(mem, 4, blocks, mem(2))
  {
    hide EncodeBlocks, Encodable;
  }

  lemma BlocksCons(b: Block, rest: seq<Block>)
    requires Encodable([b] + rest)
    ensures Encodable(rest) && |EncodeBlocks([b] + rest)| == 1 + |b.payload| + |EncodeBlocks(rest)|
    ensures BlockModes([b] + rest) == OwnModes(b) + BlockModes(rest)
  {
    assert ([b] + rest)[1..] == rest;
    forall c <- rest ensures c.tag < 8 && |c.payload| < 32 {
      assert c in [b] + rest;
    }
  }

  /** But the buffer of 50 modes does not hold what a well-formed extension can say: two video blocks
      of 31 known VICs are 62 modes. */
  lemma TooManyModes(p: seq<byte>, q: seq<byte>, cfg: Cfg)
    requires |p| == |q| == 31 && (forall v <- p :: v % 128 in KNOWN_VICS) && (forall v <- q :: v % 128 in KNOWN_VICS)
    ensures var blocks := [Block(VIDEO, p)] + [Block(VIDEO, q)];
      && Encodable(blocks) && |EncodeBlocks(blocks)| == 64
      && var mem := Extension(blocks);
      && mem(0) == 2 && mem(1) == 3 && mem(2) == 68 && Tiles(mem, 4, blocks, 68)
      && |NewModes(mem, cfg)| >= 62 > MAX_MODES
  {
    var b, c := Block(VIDEO, p), Block(VIDEO, q);
    TwoVideoBlocks(b, c);
    VicsBounded(p);
    VicsBounded(q);
    hide *;
    ExtensionTiles([b] + [c]);
    TwoBlockModes(b, c, Extension([b] + [c]), cfg);
  }

  lemma TwoVideoBlocks(b: Block, c: Block)
    requires b.tag == c.tag == VIDEO && |b.payload| == |c.payload| == 31
    ensures Encodable([b] + [c]) && |EncodeBlocks([b] + [c])| == 64
  {
    assert forall x <- [b] + [c] :: x == b || x == c;
    hide EncodeBlocks;
    BlocksCons(b, [c]);
    AppendNothing([c]);
    BlocksCons(c, []);
    NoEncoding();
  }

  lemma NoEncoding()
    ensures EncodeBlocks([]) == []
  {
  }

  lemma TwoBlockModes(b: Block, c: Block, mem: Memory, cfg: Cfg)
    requires mem(1) >= 3 && mem(2) <= LAST_SAFE && Tiles(mem, 4, [b] + [c], mem(2))
    requires b.tag == c.tag == VIDEO
    ensures |NewModes(mem, cfg)| >= |Vics(b.payload)| + |Vics(c.payload)|
  {
    assert forall x <- [b] + [c] :: Aligned(x);
    hide *;
    ModesInOrder(mem, [b] + [c], cfg);
    TwoBlockModesAre(b, c);
  }

  lemma TwoBlockModesAre(b: Block, c: Block)
    requires b.tag == c.tag == VIDEO
    ensures BlockModes([b] + [c]) == Vics(b.payload) + Vics(c.payload)
  {
    hide BlockModes, Vics;
    TailOfSum([b], [c]);
    AppendNothing([c]);
    BlockModesCons([b] + [c]);
    BlockModesCons([c]);
    assert [c][1..] == [];
    NoBlockModes();
    AppendNothing(Vics(c.payload));
  }

  lemma NoBlockModes()
    ensures BlockModes([]) == []
  {
  }

  /** CEA-861-D says that d = 0 means no timings, but the header itself is then taken for one. */
  lemma HeaderTakenForTiming(mem: Memory, cfg: Cfg)
    requires mem(0) == 2 && mem(2) == 0
    ensures NewModes(mem, cfg) != [] && NewModes(mem, cfg)[0] == Detailed(Octets(mem, 0, TIMING_SIZE))
  {
  }

  // ---------- in place ----------

  lemma U8Add(a: nat, b: nat)
    ensures U8(U8(a) + b) == U8(a + b)
  {
  }

  lemma AudiosStep(mem: Memory, index: byte, i: nat, len: nat, a: Audio)
    requires i < len
    ensures Audios(mem, index, i, len, a)
         == Audios(mem, U8(index + 3), i + 3, len, Descriptor(mem(index + 1), mem(index + 2), mem(index + 3), a))
  {
  }

  lemma AudiosEnd(mem: Memory, index: byte, i: nat, len: nat, a: Audio)
    requires i >= len
    ensures Audios(mem, index, i, len, a) == a
  {
  }

  class Config {
    var underscan: bool
    var basicAudio: bool
    var ycbcr444: bool
    var ycbcr422: bool
    var hdmiCap: bool
    var physicalAddress: (int, int, int, int)
    var maxChannels: nat
    var sampleRates: nat
    var sampleSizes: nat
    var speakerAlloc: byte

    function Value(): Cfg
      reads this
    {
      Cfg(underscan, basicAudio, ycbcr444, ycbcr422, hdmiCap, physicalAddress,
          Audio(maxChannels, sampleRates, sampleSizes), speakerAlloc)
    }

    method SetFlags(mem: Memory)
      modifies this
      ensures Value() == Flags(mem, old(Value()))
    {
      if mem(1) >= 2 {
        underscan := mem(3) / 128 == 1;
        basicAudio := mem(3) / 64 % 2 == 1;
        ycbcr444 := mem(3) / 32 % 2 == 1;
        ycbcr422 := mem(3) / 16 % 2 == 1;
      }
    }

    /** The vendor specific data block, up to the physical address; its case ends by setting the
        cursor to the last octet of the block. */
    method VendorBlock(mem: Memory, index: byte, blklen: nat) returns (next: byte)
      modifies this
      ensures Value() == Vendor(mem, index, old(Value())) && next == U8(index + blklen)
    {
      var vsdEnd := U8(index + blklen);
      physicalAddress := (mem(index + 4) / 16, mem(index + 4) % 16, mem(index + 5) / 16, mem(index + 5) % 16);
      if mem(index + 1) == 0x03 && mem(index + 2) == 0x0C && mem(index + 3) == 0x00 {
        hdmiCap := true;
      }
      next := vsdEnd;
    }

    method AudioBlock(mem: Memory, index: byte, blklen: nat) returns (next: byte)
      modifies this
      ensures Value() == old(Value()).(audio := Audios(mem, index, 0, blklen, NO_AUDIO))
      ensures next == U8(index + (blklen + 2) / 3 * 3)
    {
      hide U8, Descriptor, Audios;
      var i := 0;
      next := index;
      U8Of(index);
      maxChannels, sampleRates, sampleSizes := 0, 0, 0;
      while i < blklen
        invariant i % 3 == 0 && i <= (blklen + 2) / 3 * 3 && next == U8(index + i)
        invariant Value() == old(Value()).(audio := Value().audio)
        invariant Audios(mem, next, i, blklen, Value().audio) == Audios(mem, index, 0, blklen, NO_AUDIO)
      {
        AudiosStep(mem, next, i, blklen, Value().audio);
        AddDescriptor(mem(next + 1), mem(next + 2), mem(next + 3));
        U8Add(index + i, 3);
        next := U8(next + 3);
        i := i + 3;
      }
      AudiosEnd(mem, next, i, blklen, Value().audio);
    }

    method AddDescriptor(byte1: byte, byte2: byte, byte3: byte)
      modifies this
      ensures Value() == old(Value()).(audio := Descriptor(byte1, byte2, byte3, old(Value().audio)))
    {
      var audioFormat, maxCh := byte1 / 8, byte1 % 8 + 1;
      if audioFormat == LPCM {
        if maxCh > maxChannels {
          maxChannels := maxCh;
        }
        sampleRates := Or(sampleRates, byte2);
        sampleSizes := Or(sampleSizes, byte3 % 8);
      }
    }

    method SpeakerBlock(mem: Memory, index: byte, blklen: nat) returns (next: byte)
      modifies this
      ensures Value() == old(Value()).(speakerAlloc := Speakers(mem, index, 0, blklen, old(speakerAlloc)))
      ensures next == U8(index + (blklen + 2) / 3 * 3)
    {
      hide U8;
      var i := 0;
      next := index;
      U8Of(index);
      while i < blklen
        invariant i % 3 == 0 && i <= (blklen + 2) / 3 * 3 && next == U8(index + i)
        invariant Value() == old(Value()).(speakerAlloc := speakerAlloc)
        invariant Speakers(mem, next, i, blklen, speakerAlloc) == Speakers(mem, index, 0, blklen, old(speakerAlloc))
      {
        speakerAlloc := mem(next + 1);
        U8Add(index + i, 3);
        next := U8(next + 3);
        i := i + 3;
      }
    }

    /** One turn of the loop over the data blocks. */
    method DataBlock(mem: Memory, index: byte, mode: array<Mode>, num: nat) returns (next: byte, more: nat)
      requires num <= mode.Length
      requires |Turn(mem, Walk(index, mode[..num], Value())).modes| <= mode.Length
      modifies this, mode
      ensures more <= mode.Length
      ensures Walk(next, mode[..more], Value()) == Turn(mem, Walk(index, old(mode[..num]), old(Value())))
    {
      hide U8, VideoModes, Vendor, Audios, Speakers, TagCode, BlkLen;
      var tagcode, blklen := TagCode(mem(index)), BlkLen(mem(index));
      U8Add(index + Span(mem(index)), 1);
      next, more := index, num;
      if tagcode == VIDEO {
        next, more := VideoBlock(mem, index, blklen, mode, num);
      } else if tagcode == VENDOR {
        next := VendorBlock(mem, index, blklen);
      } else if tagcode == AUDIO {
        next := AudioBlock(mem, index, blklen);
      } else if tagcode == SPEAKER {
        next := SpeakerBlock(mem, index, blklen);
      } else {
        next := U8(index + blklen);
      }
      next := U8(next + 1);
    }
  }

  method VideoBlock(mem: Memory, index: byte, blklen: nat, mode: array<Mode>, num: nat) returns (next: byte, more: nat)
    requires num + |VideoModes(mem, index, blklen)| <= mode.Length
    modifies mode
    ensures next == U8(index + blklen) && more <= mode.Length
    ensures mode[..more] == old(mode[..num]) + VideoModes(mem, index, blklen)
  {
    hide U8, VideoModes, KnownMode;
    var i := 0;
    next, more := index, num;
    U8Of(index);
    ghost var goal := mode[..num] + VideoModes(mem, index, blklen);
    while i < blklen
      invariant i <= blklen && next == U8(index + i) && more <= mode.Length
      invariant mode[..more] + VideoModes(mem, next, blklen - i) == goal
    {
      ghost var sofar := mode[..more];
      VideoStep(mem, next, blklen - i);
      U8Add(index + i, 1);
      next := U8(next + 1);
      var ceaIdx := mem(next) % 128;
      ghost var known, rest := KnownMode(mem(next)), VideoModes(mem, next, blklen - i - 1);
      assert sofar + (known + rest) == sofar + known + rest;
      KnownModeIs(mem(next));
      if ceaIdx in KNOWN_VICS {
        mode[more] := Cea(ceaIdx);
        more := more + 1;
      }
      assert mode[..more] == sofar + known;
      i := i + 1;
    }
    VideoNone(mem, next);
  }

  lemma KnownModeIs(octet: byte)
    ensures octet % 128 in KNOWN_VICS ==> KnownMode(octet) == [Cea(octet % 128)]
    ensures octet % 128 !in KNOWN_VICS ==> KnownMode(octet) == []
  {
  }

  lemma VideoNone(mem: Memory, index: byte)
    ensures VideoModes(mem, index, 0) == []
  {
  }

  /** struct fb_monspecs: modedb with its length. */
  class Specs {
    var modedb: array<Mode>

    constructor (modes: array<Mode>)
      ensures modedb == modes
    {
      modedb := modes;
    }

    /** The tail of mxc_edid_parse_ext_blk: a longer list takes the place of the old one. */
    method Append(mode: array<Mode>, num: nat)
      requires num <= mode.Length
      modifies this
      ensures modedb[..] == old(modedb[..]) + old(mode[..num])
    {
      if num == 0 {
        return;
      }
      var m := new Mode[num + modedb.Length](_ => Cea(0));
      forall i | 0 <= i < modedb.Length {      // memmove
        m[i] := modedb[i];
      }
      ghost var before := m[..modedb.Length];
      assert before == modedb[..];
      forall i | 0 <= i < num {                // memmove
        m[modedb.Length + i] := mode[i];
      }
      assert m[..modedb.Length] == before && m[modedb.Length..] == mode[..num];
      assert m[..] == m[..modedb.Length] + m[modedb.Length..];
      modedb := m;
    }
  }

  lemma TurnGrows(mem: Memory, w: Walk)
    ensures |Turn(mem, w).modes| >= |w.modes|
  {
    hide Next, VideoModes, Vendor, Audios, Speakers, TagCode, BlkLen;
  }

  lemma {:induction false} ModesGrow(mem: Memory, d: byte, w: Walk)
    requires d <= LAST_SAFE
    ensures |WalkBlocks(mem, d, w).modes| >= |w.modes|
    decreases d - w.index
  {
    hide *;
    if w.index < d {
      WalkStep(mem, d, w);
      TurnGrows(mem, w);
      ModesGrow(mem, d, Turn(mem, w));
    } else {
      WalkEnd(mem, d, w);
    }
  }

  /** The loop over the data blocks. */
  method DataBlocks(mem: Memory, cfg: Config, d: byte, mode: array<Mode>) returns (num: nat)
    requires d <= LAST_SAFE && |WalkBlocks(mem, d, Walk(4, [], cfg.Value())).modes| <= mode.Length
    modifies cfg, mode
    ensures num <= mode.Length
    ensures var w := WalkBlocks(mem, d, Walk(4, [], old(cfg.Value())));
      mode[..num] == w.modes && cfg.Value() == w.cfg
  {
    hide Turn, WalkBlocks;
    var index: byte := 4;
    num := 0;
    ghost var goal := WalkBlocks(mem, d, Walk(4, [], cfg.Value()));
    assert mode[..num] == [];
    while index < d
      invariant num <= mode.Length
      invariant WalkBlocks(mem, d, Walk(index, mode[..num], cfg.Value())) == goal
      decreases d - index
    {
      WalkStep(mem, d, Walk(index, mode[..num], cfg.Value()));
      ModesGrow(mem, d, Turn(mem, Walk(index, mode[..num], cfg.Value())));
      index, num := cfg.DataBlock(mem, index, mode, num);
    }
    WalkEnd(mem, d, Walk(index, mode[..num], cfg.Value()));
  }

  lemma WalkStep(mem: Memory, d: byte, w: Walk)
    requires w.index < d <= LAST_SAFE
    ensures WalkBlocks(mem, d, w) == WalkBlocks(mem, d, Turn(mem, w)) && Turn(mem, w).index > w.index
  {
    hide Turn, VideoModes, Vendor, Audios, Speakers;
  }

  lemma WalkEnd(mem: Memory, d: byte, w: Walk)
    requires d <= LAST_SAFE && w.index >= d
    ensures WalkBlocks(mem, d, w) == w
  {
  }

  /** The loop over the detailed timings. */
  method DetailedTimings(mem: Memory, d: byte, mode: array<Mode>, from: nat) returns (num: nat)
    requires from + |Timings(mem, d)| <= mode.Length
    modifies mode
    ensures num <= mode.Length && mode[..num] == old(mode[..from]) + Timings(mem, d)
  {
    num := from;
    var index: nat := d;
    ghost var goal := mode[..from] + Timings(mem, d);
    while index < EDID_LENGTH - TIMING_SIZE
      invariant num <= mode.Length && mode[..num] + Timings(mem, index) == goal
      decreases EDID_LENGTH - index
    {
      ghost var sofar, rest := mode[..num], Timings(mem, index + TIMING_SIZE);
      ghost var own := if mem(index) == 0 && mem(index + 1) == 0 then [] else [Detailed(Octets(mem, index, TIMING_SIZE))];
      assert sofar + (own + rest) == sofar + own + rest;
      if !(mem(index) == 0 && mem(index + 1) == 0) {
        mode[num] := Detailed(Octets(mem, index, TIMING_SIZE));    // get_detailed_timing
        num := num + 1;
        assert mode[..num] == sofar + own;
      } else {
        assert sofar + own == sofar;
      }
      index := index + TIMING_SIZE;
    }
  }

  /** mxc_edid_parse_ext_blk.  Its buffer for new modes has 50 entries and is not checked, and behind
      d = 222 the walk need not end. */
  method ParseExtBlk(mem: Memory, cfg: Config, specs: Specs) returns (ret: int)
    requires mem(0) == 2 ==> mem(2) <= LAST_SAFE && |NewModes(mem, cfg.Value())| <= MAX_MODES
    modifies cfg, specs
    ensures ret == if mem(0) == 2 then 0 else -1
    ensures mem(0) != 2 ==> cfg.Value() == old(cfg.Value()) && specs.modedb == old(specs.modedb)
    ensures mem(0) == 2 ==> cfg.Value() == WalkAll(mem, old(cfg.Value())).cfg
    ensures mem(0) == 2 ==> specs.modedb[..] == old(specs.modedb[..]) + NewModes(mem, old(cfg.Value()))
  {
    if mem(0) != 2 {
      return -1;
    }
    hide WalkBlocks, Timings;
    var revision, d := mem(1), mem(2);
    var mode := new Mode[MAX_MODES](_ => Cea(0));
    cfg.SetFlags(mem);
    var num := 0;
    assert mode[..0] == [];
    if revision >= 3 {
      num := DataBlocks(mem, cfg, d, mode);
    }
    num := DetailedTimings(mem, d, mode, num);
    specs.Append(mode, num);
    ret := 0;
  }
}
