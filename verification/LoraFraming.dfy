/** LoRa frames: fragments of a message, acknowledgements, and reassembly. */
module LoraFraming {
  import opened Arithmetic
  import opened Octets
  import opened Options
  import opened Chunks
  import opened Counting

  type Bytes = seq<Byte>

  const HDR_MAGIC: Byte := 0x4C
  const ACK_MAGIC: Byte := 0x41
  const BROADCAST: Byte := 0xFF
  const HDR_LEN := 8
  const ACK_LEN := 6
  const MAX_FRAGS := 0xFFFF

  function Low8(x: int): Byte {
    x % 256
  }

  /** Sixteen bits, least significant byte first. */
  function Pack16(x: nat): (b: Bytes)
    requires x <= MAX_FRAGS
    ensures |b| == 2
  {
    [x % 256, x / 256]
  }

  /** `hi` times 256. By repeated addition, so that reasoning about frames stays free of products of bytes. */
  function HighPart(hi: nat): nat {
    if hi == 0 then 0 else HighPart(hi - 1) + 256
  }

  lemma {:induction false} HighPartIsProduct(hi: nat)
    ensures HighPart(hi) == 256 * hi
  {
    if hi > 0 {
      HighPartIsProduct(hi - 1);
    }
  }

  function Unpack16(lo: Byte, hi: Byte): (x: nat)
    ensures x <= MAX_FRAGS
  {
    HighPartIsProduct(hi);
    lo + HighPart(hi)
  }

  lemma PackUnpack16(x: nat)
    requires x <= MAX_FRAGS
    ensures Unpack16(Pack16(x)[0], Pack16(x)[1]) == x
  {
    HighPartIsProduct(x / 256);
  }

  lemma UnpackPack16(lo: Byte, hi: Byte)
    ensures Pack16(Unpack16(lo, hi)) == [lo, hi]
  {
    var x := Unpack16(lo, hi);
    HighPartIsProduct(hi);
    assert x % 256 == lo && x / 256 == hi;
  }

  datatype Frame =
    | Ack(src: Byte, dst: Byte, msgId: Byte, idx: nat)
    | Data(src: Byte, dst: Byte, msgId: Byte, idx: nat, nFrags: nat, payload: Bytes)

  predicate Fits16(f: Frame) {
    f.idx <= MAX_FRAGS && (f.Data? ==> f.nFrags <= MAX_FRAGS)
  }

  /** A frame as bytes. */
  function Wire(f: Frame): Bytes
    requires Fits16(f)
  {
    match f
    case Ack(src, dst, mid, idx) => [ACK_MAGIC, src, dst, mid] + Pack16(idx)
    case Data(src, dst, mid, idx, n, payload) => [HDR_MAGIC, src, dst, mid] + Pack16(idx) + Pack16(n) + payload
  }

  function AckFrame(msgId: int, idx: nat, src: int, dst: int): Bytes
    requires idx <= MAX_FRAGS
  {
    Wire(Ack(Low8(src), Low8(dst), Low8(msgId), idx))
  }

  /** None when the bytes are not ours. Bytes after a whole acknowledgement are ignored. */
  function Parse(b: Bytes): (p: Option<Frame>)
    ensures p.Some? ==> Fits16(p.value)
  {
    if |b| >= ACK_LEN && b[0] == ACK_MAGIC then
      Some(Ack(b[1], b[2], b[3], Unpack16(b[4], b[5])))
    else if |b| >= HDR_LEN && b[0] == HDR_MAGIC then
      Some(Data(b[1], b[2], b[3], Unpack16(b[4], b[5]), Unpack16(b[6], b[7]), b[HDR_LEN..]))
    else None
  }

  /** The bytes of a data frame: 'L', addresses, message, number and count with their low bytes first, payload. */
  lemma DataLayout(f: Frame)
    requires f.Data? && Fits16(f)
    ensures var w := Wire(f);
            && |w| == 8 + |f.payload| && w[0] == 'L' as nat && w[1] == f.src && w[2] == f.dst && w[3] == f.msgId
            && w[4] as int + 256 * w[5] as int == f.idx && w[6] as int + 256 * w[7] as int == f.nFrags
            && w[8..] == f.payload
  {
  }

  /** The bytes of an acknowledgement: 'A', addresses, message and number with its low byte first. */
  lemma AckLayout(f: Frame)
    requires f.Ack? && Fits16(f)
    ensures var w := Wire(f);
            && |w| == 6 && w[0] == 'A' as nat && w[1] == f.src && w[2] == f.dst && w[3] == f.msgId
            && w[4] as int + 256 * w[5] as int == f.idx
  {
  }

  /** Every frame is read back as itself: data is never taken for an acknowledgement or the other way round. */
  lemma ParseOfWire(f: Frame)
    requires Fits16(f)
    ensures Parse(Wire(f)) == Some(f)
  {
    PackUnpack16(f.idx);
    if f.Data? {
      PackUnpack16(f.nFrags);
      assert Wire(f)[HDR_LEN..] == f.payload;
    }
  }

  /** Bytes that parse are a frame's bytes, up to what follows an acknowledgement. */
  lemma WireOfParse(b: Bytes)
    requires Parse(b).Some?
    ensures var w := Wire(Parse(b).value); if Parse(b).value.Ack? then w == b[..ACK_LEN] else w == b
  {
    UnpackPack16(b[4], b[5]);
    if Parse(b).value.Data? {
      UnpackPack16(b[6], b[7]);
      assert b == b[..HDR_LEN] + b[HDR_LEN..];
    }
  }

  /** Whether a parsed frame is for this node; a node without an address takes everything. */
  predicate ForMe(p: Option<Frame>, me: Option<int>) {
    p.Some? && (me.None? || p.value.dst == Low8(me.value) || p.value.dst == BROADCAST)
  }

  // ---- fragmentation ----

  datatype Fragmented =
    | Frames(frames: seq<Bytes>)
    | TooManyFragments(n: nat)
    | ZeroStride

  /** The payloads; a message always makes at least one. A stride below zero yields nothing but that one. */
  function Payloads(data: Bytes, cap: int): seq<Bytes>
    requires cap != 0
  {
    var chunks := if cap > 0 then Split(data, cap) else [];
    if chunks == [] then [[]] else chunks
  }

  function FragmentFrame(chunks: seq<Bytes>, msgId: int, src: int, dst: int, i: nat): Frame
    requires i < |chunks|
  {
    Data(Low8(src), Low8(dst), Low8(msgId), i, |chunks|, chunks[i])
  }

  function Fragment(data: Bytes, msgId: int, mtu: int, src: int, dst: int): Fragmented {
    var cap := mtu - HDR_LEN;
    if cap == 0 then ZeroStride
    else
      var chunks := Payloads(data, cap);
      var n := |chunks|;
      if n > MAX_FRAGS then TooManyFragments(n)
      else Frames(seq(n, i requires 0 <= i < n => Wire(FragmentFrame(chunks, msgId, src, dst, i))))
  }

  lemma PayloadsJoin(data: Bytes, cap: int)
    requires cap != 0
    ensures |Payloads(data, cap)| > 0
    ensures Join(Payloads(data, cap)) == data <==> cap > 0 || data == []
    ensures cap > 0 ==> forall i | 0 <= i < |Payloads(data, cap)| :: |Payloads(data, cap)[i]| <= cap
  {
    if cap > 0 {
      SplitJoin(data, cap);
    }
    JoinSingle<Byte>([]);
  }

  /** All frames fit the MTU exactly when it leaves room for a payload. */
  lemma FramesFitIffRoom(data: Bytes, msgId: int, mtu: int, src: int, dst: int)
    requires Fragment(data, msgId, mtu, src, dst).Frames?
    ensures var frames := Fragment(data, msgId, mtu, src, dst).frames;
            (forall i | 0 <= i < |frames| :: |frames[i]| <= mtu) <==> mtu > HDR_LEN
  {
    var chunks, frames := Payloads(data, mtu - HDR_LEN), Fragment(data, msgId, mtu, src, dst).frames;
    PayloadsJoin(data, mtu - HDR_LEN);
    forall i | 0 <= i < |frames|
      ensures |frames[i]| == HDR_LEN + |chunks[i]|
    {
      assert frames[i] == Wire(FragmentFrame(chunks, msgId, src, dst, i));
    }
    if mtu < HDR_LEN {
      assert |frames[0]| > mtu;
    }
  }

  /** Parsing a fragment gives its number, the number of fragments and its piece of the data. */
  lemma ParseOfFragment(data: Bytes, msgId: int, mtu: int, src: int, dst: int, i: nat)
    requires Fragment(data, msgId, mtu, src, dst).Frames? && i < |Payloads(data, mtu - HDR_LEN)|
    ensures var chunks, frames := Payloads(data, mtu - HDR_LEN), Fragment(data, msgId, mtu, src, dst).frames;
            |frames| == |chunks| && Parse(frames[i]) == Some(FragmentFrame(chunks, msgId, src, dst, i))
  {
    ParseOfWire(FragmentFrame(Payloads(data, mtu - HDR_LEN), msgId, src, dst, i));
  }

  /** Fragmentation fails for lack of numbers exactly when the data needs more than 65535 payloads. */
  lemma TooManyIff(data: Bytes, msgId: int, mtu: int, src: int, dst: int)
    requires mtu > HDR_LEN
    ensures Fragment(data, msgId, mtu, src, dst).TooManyFragments? <==> |data| > MAX_FRAGS * (mtu - HDR_LEN)
  {
    var cap := mtu - HDR_LEN;
    if data != [] {
      SplitCount(data, cap);
      var n := |Split(data, cap)|;
      Scaled(n, MAX_FRAGS, cap);
      Scaled(MAX_FRAGS + 1, n, cap);
    }
  }

  // ---- reassembly ----

  datatype Assembly = Assembly(msgId: Option<nat>, parts: map<nat, Bytes>, nFrags: Option<nat>)

  const EMPTY := Assembly(None, map[], None)

  // `MissingKey`: enough parts by count, but not the ones wanted.
  datatype Completion = Incomplete | Complete(data: Bytes) | MissingKey

  function AddPart(a: Assembly, msgId: nat, idx: nat, nFrags: nat, payload: Bytes): Assembly {
    var parts := if a.msgId == Some(msgId) then a.parts else map[];
    Assembly(Some(msgId), parts[idx := payload], Some(nFrags))
  }

  /** Parts 0 to n-1 in order. */
  function JoinParts(parts: map<nat, Bytes>, n: nat): Bytes {
    if n == 0 then [] else JoinParts(parts, n - 1) + if n - 1 in parts then parts[n - 1] else []
  }

  function Status(a: Assembly): Completion {
    if a.nFrags.None? || |a.parts| < a.nFrags.value then Incomplete
    else if forall i | 0 <= i < a.nFrags.value :: i in a.parts then Complete(JoinParts(a.parts, a.nFrags.value))
    else MissingKey
  }

  class Reassembler {
    var msgId: Option<nat>
    var parts: map<nat, Bytes>
    var nFrags: Option<nat>

    ghost function State(): Assembly
      reads this
    {
      Assembly(msgId, parts, nFrags)
    }

    constructor ()
      ensures State() == EMPTY
    {
      msgId, parts, nFrags := None, map[], None;
    }

    method Add(mid: nat, idx: nat, n: nat, payload: Bytes) returns (done: Completion)
      modifies this
      ensures State() == AddPart(old(State()), mid, idx, n, payload) && done == Status(State())
    {
      if msgId != Some(mid) {
        msgId, parts, nFrags := Some(mid), map[], Some(n);
      }
      parts := parts[idx := payload];
      nFrags := Some(n);
      done := CheckComplete();
    }

    method CheckComplete() returns (done: Completion)
      ensures done == Status(State())
    {
      if nFrags.None? || |parts| < nFrags.value {
        return Incomplete;
      }
      var data: Bytes := [];
      for i := 0 to nFrags.value
        invariant (forall j | 0 <= j < i :: j in parts) && data == JoinParts(parts, i)
      {
        if i !in parts {
          return MissingKey;
        }
        data := data + parts[i];
      }
      return Complete(data);
    }

    method Missing() returns (missing: seq<nat>)
      ensures nFrags.None? ==> missing == []
      ensures nFrags.Some? ==> forall i :: i in missing <==> 0 <= i < nFrags.value && i !in parts
    {
      missing := [];
      if nFrags.Some? {
        for i := 0 to nFrags.value
          invariant forall j :: j in missing <==> 0 <= j < i && j !in parts
        {
          if i !in parts {
            missing := missing + [i];
          }
        }
      }
    }
  }

  /** The assembly after the fragments with the given numbers have arrived, in that order. */
  function Feed(start: Assembly, msgId: nat, chunks: seq<Bytes>, order: seq<nat>): Assembly
    requires forall t | 0 <= t < |order| :: order[t] < |chunks|
  {
    if order == [] then start
    else
      var n := |order| - 1;
      AddPart(Feed(start, msgId, chunks, order[..n]), msgId, order[n], |chunks|, chunks[order[n]])
  }

  /** The parts held are true fragments. */
  ghost predicate TrueParts(parts: map<nat, Bytes>, chunks: seq<Bytes>) {
    forall i | i in parts :: i < |chunks| && parts[i] == chunks[i]
  }

  lemma {:induction false} FeedHolds(start: Assembly, msgId: nat, chunks: seq<Bytes>, order: seq<nat>)
    requires start.msgId != Some(msgId) && order != []
    requires forall t | 0 <= t < |order| :: order[t] < |chunks|
    ensures var a := Feed(start, msgId, chunks, order);
            && a.msgId == Some(msgId) && a.nFrags == Some(|chunks|) && TrueParts(a.parts, chunks)
            && forall i :: i in a.parts <==> i in order
  {
    var n := |order| - 1;
    if n > 0 {
      FeedHolds(start, msgId, chunks, order[..n]);
    }
    assert order == order[..n] + [order[n]];
  }

  lemma {:induction false} TruePartsJoin(parts: map<nat, Bytes>, chunks: seq<Bytes>, n: nat)
    requires TrueParts(parts, chunks) && n <= |chunks| && forall i | 0 <= i < n :: i in parts
    ensures JoinParts(parts, n) == Join(chunks[..n])
  {
    if n > 0 {
      TruePartsJoin(parts, chunks, n - 1);
      assert chunks[..n][..n - 1] == chunks[..n - 1];
    }
  }

  /** With only true fragments in hand, the message is complete exactly when none is missing, and then it is whole. */
  lemma TruePartsStatus(parts: map<nat, Bytes>, chunks: seq<Bytes>, msgId: nat)
    requires TrueParts(parts, chunks)
    ensures Status(Assembly(Some(msgId), parts, Some(|chunks|)))
         == if forall i | 0 <= i < |chunks| :: i in parts then Complete(Join(chunks)) else Incomplete
  {
    var n := |chunks|;
    assert parts.Keys <= Below(n);
    SmallerSubset(parts.Keys, Below(n));
    if |parts| >= n {
      SubsetOfSameSize(parts.Keys, Below(n));
    }
    if forall i | 0 <= i < n :: i in parts {
      assert parts.Keys == Below(n);
      TruePartsJoin(parts, chunks, n);
      assert chunks[..n] == chunks;
    }
  }

  /**
   * Fed in any order, with any repeats, the reassembler first completes when the last missing number arrives, and
   * the result is the data.
   */
  lemma ReassemblesInAnyOrder(start: Assembly, msgId: nat, data: Bytes, cap: int, order: seq<nat>)
    requires cap > 0 && start.msgId != Some(msgId) && order != []
    requires forall t | 0 <= t < |order| :: order[t] < |Payloads(data, cap)|
    ensures Status(Feed(start, msgId, Payloads(data, cap), order))
         == if forall i | 0 <= i < |Payloads(data, cap)| :: i in order then Complete(data) else Incomplete
  {
    var chunks := Payloads(data, cap);
    var a := Feed(start, msgId, chunks, order);
    FeedHolds(start, msgId, chunks, order);
    TruePartsStatus(a.parts, chunks, msgId);
    PayloadsJoin(data, cap);
  }
}
