/**
 The walks over USB configuration data in mc1208fs-plus/mccdevice.c: three loops over
 length-prefixed records, against one list of the records.  An endpoint descriptor is
 laid out as section 9.6.6 of the USB 2.0 specification says: length, type 5, address
 with the direction in bit 7, attributes, and a little-endian packet size.
 */
module Descriptors {
  import opened Words

  const ENDPOINT: Byte := 0x05

  datatype Descriptor = Descriptor(bytes: seq<Byte>)
  {
    predicate IsEndpoint() {
      |bytes| > 2 && bytes[1] == ENDPOINT
    }

    /** data[index + 2] & 0x80 */
    predicate IsIn() {
      IsEndpoint() && bytes[2] >= 0x80
    }

    predicate IsOut() {
      IsEndpoint() && bytes[2] < 0x80
    }

    function Address(): Byte {
      if |bytes| > 2 then bytes[2] else 0
    }

    function PacketSize(): nat {
      if |bytes| > 5 then 256 * (bytes[5] as int) + bytes[4] else 0
    }
  }

  // ---------- chains of records ----------

  /** A record whose length byte is its length, and long enough for what is read of it. */
  ghost predicate WellFormed(d: Descriptor) {
    && 2 <= |d.bytes| < 256
    && d.bytes[0] == |d.bytes|
    && (d.bytes[1] == ENDPOINT ==> |d.bytes| > 5)
  }

  ghost predicate Chain(ds: seq<Descriptor>) {
    forall k :: 0 <= k < |ds| ==> WellFormed(ds[k])
  }

  function Bytes(ds: seq<Descriptor>): seq<Byte> {
    if ds == [] then [] else ds[0].bytes + Bytes(ds[1..])
  }

  /** The address of the first IN endpoint, or 0. */
  function FirstIn(ds: seq<Descriptor>): Byte {
    if ds == [] then 0 else if ds[0].IsIn() then ds[0].Address() else FirstIn(ds[1..])
  }

  /** The address of the first OUT endpoint, or 0. */
  function FirstOut(ds: seq<Descriptor>): Byte {
    if ds == [] then 0 else if ds[0].IsOut() then ds[0].Address() else FirstOut(ds[1..])
  }

  /** The packet size of the first IN endpoint, or 0. */
  function FirstInSize(ds: seq<Descriptor>): nat {
    if ds == [] then 0 else if ds[0].IsIn() then ds[0].PacketSize() else FirstInSize(ds[1..])
  }

  ghost predicate HasIn(ds: seq<Descriptor>) {
    exists k :: 0 <= k < |ds| && ds[k].IsIn()
  }

  // ---------- what the list's answers are, in bytes ----------

  /** Record k is an endpoint, type 5, of the direction in the top bit of its address. */
  ghost predicate EndpointAt(ds: seq<Descriptor>, k: nat, incoming: bool)
    requires k < |ds|
  {
    var bytes := ds[k].bytes;
    |bytes| > 2 && bytes[1] == 5 && (incoming <==> bytes[2] >= 0x80)
  }

  /** Record k is the first such endpoint. */
  ghost predicate FirstEndpoint(ds: seq<Descriptor>, k: nat, incoming: bool) {
    k < |ds| && EndpointAt(ds, k, incoming) && forall j :: 0 <= j < k ==> !EndpointAt(ds, j, incoming)
  }

  /** An address of 0 for no endpoint of a direction, and otherwise that of the first. */
  ghost predicate IsFirstAddress(address: Byte, ds: seq<Descriptor>, incoming: bool) {
    || (address == 0 && forall k :: 0 <= k < |ds| ==> !EndpointAt(ds, k, incoming))
    || (exists k: nat :: FirstEndpoint(ds, k, incoming) && address == ds[k].bytes[2])
  }

  lemma LaterEndpoints(ds: seq<Descriptor>, incoming: bool)
    requires ds != []
    ensures forall k :: 0 < k < |ds| ==> (EndpointAt(ds, k, incoming) <==> EndpointAt(ds[1..], k - 1, incoming))
    ensures forall k: nat :: !EndpointAt(ds, 0, incoming) && FirstEndpoint(ds[1..], k, incoming) ==>
              FirstEndpoint(ds, k + 1, incoming)
  {
  }

  lemma {:induction false} FirstInIs(ds: seq<Descriptor>)
    ensures IsFirstAddress(FirstIn(ds), ds, true)
  {
    if ds != [] {
      FirstInIs(ds[1..]);
      LaterEndpoints(ds, true);
      if ds[0].IsIn() {
        assert FirstEndpoint(ds, 0, true);
      } else if k: nat :| FirstEndpoint(ds[1..], k, true) && FirstIn(ds[1..]) == ds[1..][k].bytes[2] {
        assert FirstEndpoint(ds, k + 1, true);
      }
    }
  }

  lemma {:induction false} FirstOutIs(ds: seq<Descriptor>)
    ensures IsFirstAddress(FirstOut(ds), ds, false)
  {
    if ds != [] {
      FirstOutIs(ds[1..]);
      LaterEndpoints(ds, false);
      if ds[0].IsOut() {
        assert FirstEndpoint(ds, 0, false);
      } else if k: nat :| FirstEndpoint(ds[1..], k, false) && FirstOut(ds[1..]) == ds[1..][k].bytes[2] {
        assert FirstEndpoint(ds, k + 1, false);
      }
    }
  }

  // ---------- where a walk stands ----------

  /** The records still ahead fill the buffer from index to end. */
  ghost predicate Laid(data: seq<Byte>, index: nat, ds: seq<Descriptor>, end: nat) {
    index <= end <= |data| && data[index..end] == Bytes(ds)
  }

  ghost predicate Ahead(data: seq<Byte>, index: nat, ds: seq<Descriptor>, end: nat) {
    Chain(ds) && Laid(data, index, ds, end)
  }

  /** Enough of a record for the walks for addresses: the end of the transfer may cut it. */
  ghost predicate Readable(d: Descriptor) {
    && |d.bytes| >= 2
    && d.bytes[0] >= |d.bytes|
    && (d.bytes[1] == ENDPOINT ==> |d.bytes| > 2)
  }

  predicate Cut(d: Descriptor) {
    |d.bytes| > 0 && d.bytes[0] > |d.bytes|
  }

  /** Records of which only the last may be cut, and that by the end of the transfer. */
  ghost predicate AheadOrCut(data: seq<Byte>, index: nat, ds: seq<Descriptor>, end: nat, dataLength: nat) {
    && (forall k :: 0 <= k < |ds| ==> Readable(ds[k]))
    && (forall k :: 0 <= k < |ds| && Cut(ds[k]) ==> k == |ds| - 1 && end == dataLength)
    && Laid(data, index, ds, end)
  }

  /** The chain stops at the end of the transfer, or before it at a length of 0. */
  ghost predicate Stops(data: seq<Byte>, dataLength: nat, end: nat) {
    end == dataLength || (end < dataLength && end + 1 < |data| && data[end] == 0)
  }

  lemma FirstRecord(data: seq<Byte>, index: nat, ds: seq<Descriptor>, end: nat)
    requires Laid(data, index, ds, end) && ds != []
    ensures index + |ds[0].bytes| <= end
    ensures forall k :: 0 <= k < |ds[0].bytes| ==> data[index + k] == ds[0].bytes[k]
    ensures Laid(data, index + |ds[0].bytes|, ds[1..], end)
  {
    var n := |ds[0].bytes|;
    var rest := data[index..end];
    assert rest == ds[0].bytes + Bytes(ds[1..]);
    assert rest[..n] == ds[0].bytes && rest[n..] == Bytes(ds[1..]);
    assert forall k :: 0 <= k < n ==> data[index + k] == rest[k];
    assert data[index + n..end] == rest[n..];
  }

  /** A walk for an address passes a record, or ends behind one that is cut. */
  lemma NextReadable(data: seq<Byte>, index: nat, ds: seq<Descriptor>, end: nat, dataLength: nat)
    requires AheadOrCut(data, index, ds, end, dataLength) && ds != []
    ensures Readable(ds[0]) && index + |ds[0].bytes| <= end
    ensures data[index] == ds[0].bytes[0] && data[index + 1] == ds[0].bytes[1]
    ensures |ds[0].bytes| > 2 ==> data[index + 2] == ds[0].bytes[2]
    ensures if Cut(ds[0]) then ds[1..] == [] && index + data[index] > end == dataLength
            else AheadOrCut(data, index + data[index], ds[1..], end, dataLength)
                 && (ds[1..] == [] <==> index + data[index] == end)
  {
    FirstRecord(data, index, ds, end);
    assert forall k :: 0 <= k < |ds[1..]| ==> ds[1..][k] == ds[k + 1];
  }

  lemma NextRecord(data: seq<Byte>, index: nat, ds: seq<Descriptor>, end: nat)
    requires Ahead(data, index, ds, end) && ds != []
    ensures WellFormed(ds[0]) && index + |ds[0].bytes| <= end
    ensures forall k :: 0 <= k < |ds[0].bytes| ==> data[index + k] == ds[0].bytes[k]
    ensures Ahead(data, index + |ds[0].bytes|, ds[1..], end)
  {
    FirstRecord(data, index, ds, end);
  }

  // ---------- the walks for addresses ----------

  /** getEndpointInAddress; a first record is read whatever dataLength is. */
  method GetEndpointInAddress(data: seq<Byte>, dataLength: nat, ghost ds: seq<Descriptor>, ghost end: nat)
    returns (address: Byte)
    requires AheadOrCut(data, 0, ds, end, dataLength) && Stops(data, dataLength, end)
    requires ds == [] ==> end < dataLength
    ensures address == FirstIn(ds) && IsFirstAddress(address, ds, true)
  {
    FirstInIs(ds);
    var index := 0;
    ghost var ahead := ds;
    while true
      invariant AheadOrCut(data, index, ahead, end, dataLength) && FirstIn(ds) == FirstIn(ahead)
      invariant ahead == [] ==> index == end < dataLength
      decreases dataLength - index
    {
      if ahead != [] {
        NextReadable(data, index, ahead, end, dataLength);
      }
      var length := data[index];
      var descriptorType := data[index + 1];
      if length == 0 {
        break;
      }
      if descriptorType != ENDPOINT {
        index := index + length;
      } else {
        if data[index + 2] >= 0x80 {
          return data[index + 2];
        } else {
          index := index + length;
        }
      }
      ahead := ahead[1..];
      if index >= dataLength {
        break;
      }
    }
    address := 0;
  }

  /** getEndpointOutAddress */
  method GetEndpointOutAddress(data: seq<Byte>, dataLength: nat, ghost ds: seq<Descriptor>, ghost end: nat)
    returns (address: Byte)
    requires AheadOrCut(data, 0, ds, end, dataLength) && Stops(data, dataLength, end)
    requires ds == [] ==> end < dataLength
    ensures address == FirstOut(ds) && IsFirstAddress(address, ds, false)
  {
    FirstOutIs(ds);
    var index := 0;
    ghost var ahead := ds;
    while true
      invariant AheadOrCut(data, index, ahead, end, dataLength) && FirstOut(ds) == FirstOut(ahead)
      invariant ahead == [] ==> index == end < dataLength
      decreases dataLength - index
    {
      if ahead != [] {
        NextReadable(data, index, ahead, end, dataLength);
      }
      var length := data[index];
      var descriptorType := data[index + 1];
      if length == 0 {
        break;
      }
      if descriptorType != ENDPOINT {
        index := index + length;
      } else {
        if data[index + 2] < 0x80 {
          return data[index + 2];
        } else {
          index := index + length;
        }
      }
      ahead := ahead[1..];
      if index >= dataLength {
        break;
      }
    }
    address := 0;
  }

  // ---------- the walk for the packet size ----------

  datatype Size = Size(bytes: nat) | LeavesBuffer

  /** The walk does not look at the length of the transfer; it may read past the buffer. */
  function SizeFrom(data: seq<Byte>, index: nat): Size
    decreases |data| - index
  {
    if index + 1 >= |data| then LeavesBuffer
    else if data[index] == 0 then Size(0)
    else if data[index + 1] != ENDPOINT then SizeFrom(data, index + data[index])
    else if index + 2 >= |data| then LeavesBuffer
    else if data[index + 2] < 0x80 then SizeFrom(data, index + data[index])
    else if index + 5 >= |data| then LeavesBuffer
    else Size(256 * (data[index + 5] as int) + data[index + 4])
  }

  /** Over a chain, the walk finds the packet size of the first IN endpoint, or goes on behind it. */
  lemma {:induction false} SizeOverChain(data: seq<Byte>, index: nat, ds: seq<Descriptor>, end: nat)
    requires Ahead(data, index, ds, end)
    ensures SizeFrom(data, index) == if HasIn(ds) then Size(FirstInSize(ds)) else SizeFrom(data, end)
    decreases |ds|
  {
    if ds != [] {
      NextRecord(data, index, ds, end);
      if ds[0].IsIn() {
        assert HasIn(ds);
      } else {
        SizeOverChain(data, index + |ds[0].bytes|, ds[1..], end);
        HasInLater(ds);
      }
    }
  }

  lemma HasInLater(ds: seq<Descriptor>)
    requires ds != [] && !ds[0].IsIn()
    ensures HasIn(ds) <==> HasIn(ds[1..])
  {
    if HasIn(ds) {
      var k :| 0 <= k < |ds| && ds[k].IsIn();
      assert ds[1..][k - 1].IsIn();
    }
    if HasIn(ds[1..]) {
      var k :| 0 <= k < |ds[1..]| && ds[1..][k].IsIn();
      assert ds[k + 1].IsIn();
    }
  }

  lemma {:induction false} NoInNoSize(ds: seq<Descriptor>)
    requires !HasIn(ds)
    ensures FirstInSize(ds) == 0
  {
    if ds != [] {
      assert !ds[0].IsIn();
      HasInLater(ds);
      NoInNoSize(ds[1..]);
    }
  }

  /** getBulkPacketSize */
  method GetBulkPacketSize(data: seq<Byte>) returns (size: Size)
    ensures size == SizeFrom(data, 0)
    ensures forall ds, end :: Ahead(data, 0, ds, end) && HasIn(ds) ==> size == Size(FirstInSize(ds))
  {
    forall ds, end | Ahead(data, 0, ds, end) && HasIn(ds)
      ensures SizeFrom(data, 0) == Size(FirstInSize(ds))
    {
      SizeOverChain(data, 0, ds, end);
    }
    var index: nat := 0;
    while true
      invariant SizeFrom(data, 0) == SizeFrom(data, index)
      decreases |data| - index
    {
      if index + 1 >= |data| {
        return LeavesBuffer;
      }
      var length := data[index];
      var descriptorType := data[index + 1];
      if length == 0 {
        break;
      }
      if descriptorType != ENDPOINT {
        index := index + length;
      } else {
        if index + 2 >= |data| {
          return LeavesBuffer;
        }
        if data[index + 2] >= 0x80 {
          if index + 5 >= |data| {
            return LeavesBuffer;
          }
          return Size(256 * (data[index + 5] as int) + data[index + 4]);
        } else {
          index := index + length;
        }
      }
    }
    size := Size(0);
  }

  /** A buffer that ends in records of length 1 is left. */
  lemma {:induction false} OnesLeave(data: seq<Byte>, index: nat)
    requires index <= |data| && forall k :: index <= k < |data| ==> data[k] == 1
    ensures SizeFrom(data, index) == LeavesBuffer
    decreases |data| - index
  {
    if index + 1 < |data| {
      OnesLeave(data, index + 1);
    }
  }

  /** A buffer of n bytes, with a chain in front and what an earlier transfer left behind it. */
  ghost predicate Buffer(data: seq<Byte>, ds: seq<Descriptor>, n: nat) {
    |data| == n && Bytes(ds) <= data
  }

  /**
   In a buffer of any given size, the walk for the packet size agrees with the list,
   whatever bytes lie behind the chain, exactly when the chain has an IN endpoint.
   */
  lemma SizeAgreesExactly(ds: seq<Descriptor>, n: nat)
    requires Chain(ds) && |Bytes(ds)| <= n
    ensures (forall data :: Buffer(data, ds, n) ==> SizeFrom(data, 0) == Size(FirstInSize(ds))) <==> HasIn(ds)
  {
    forall data | Buffer(data, ds, n)
      ensures SizeFrom(data, 0) == if HasIn(ds) then Size(FirstInSize(ds)) else SizeFrom(data, |Bytes(ds)|)
    {
      assert data[0..|Bytes(ds)|] == Bytes(ds);
      SizeOverChain(data, 0, ds, |Bytes(ds)|);
    }
    if !HasIn(ds) {
      var data := Bytes(ds) + seq(n - |Bytes(ds)|, _ => 1);
      assert Buffer(data, ds, n);
      OnesLeave(data, |Bytes(ds)|);
    }
  }

  /** A chain stopped by a length of 0 is safe without one: the walk answers 0. */
  lemma SizeStopsAtZero(data: seq<Byte>, ds: seq<Descriptor>, end: nat)
    requires Ahead(data, 0, ds, end) && end + 1 < |data| && data[end] == 0
    ensures SizeFrom(data, 0) == Size(FirstInSize(ds))
  {
    SizeOverChain(data, 0, ds, end);
    if !HasIn(ds) {
      NoInNoSize(ds);
    }
  }

  /** With an IN endpoint, address and size are those of one record, the first IN endpoint. */
  lemma {:induction false} SameEndpoint(ds: seq<Descriptor>) returns (k: nat)
    requires exists k :: 0 <= k < |ds| && EndpointAt(ds, k, true)
    ensures HasIn(ds) && FirstEndpoint(ds, k, true)
    ensures FirstIn(ds) == ds[k].bytes[2]
    ensures Chain(ds) ==> |ds[k].bytes| > 5
    ensures |ds[k].bytes| > 5 ==> FirstInSize(ds) == ds[k].bytes[4] as int + 0x100 * (ds[k].bytes[5] as int)
  {
    LaterEndpoints(ds, true);
    if ds[0].IsIn() {
      k := 0;
    } else {
      HasInLater(ds);
      k := SameEndpoint(ds[1..]);
      k := k + 1;
    }
  }

  /** A stale IN endpoint behind a chain that has none is taken for one of the device's. */
  lemma StaleEndpointIsTaken()
    ensures var ds := [Descriptor([2, 1])];
            && Chain(ds) && !HasIn(ds)
            && SizeFrom(Bytes(ds) + [7, ENDPOINT, 0x81, 2, 64, 0, 0], 0) == Size(64)
  {
    var ds := [Descriptor([2, 1])];
    var data := Bytes(ds) + [7, ENDPOINT, 0x81, 2, 64, 0, 0];
    assert Bytes(ds) == [2, 1] + Bytes([]) == [2, 1];
    assert data == [2, 1, 7, ENDPOINT, 0x81, 2, 64, 0, 0];
    assert SizeFrom(data, 0) == SizeFrom(data, 2);
  }
}
