/** Splitting a packet into fragments and putting fragments together again. */
module Fragmentation {
  import opened Bytes
  import opened Checksum
  import opened Packets

  function Min(a: nat, b: nat): nat {
    if a < b then a else b
  }

  /** How many pieces of `size` bytes cover `length` bytes. */
  function Count(length: nat, size: nat): nat
    requires size > 0
  {
    (length + size - 1) / size
  }

  /** Fragment `i` of `total`; every fragment is stamped with the time it is made. */
  function FragmentAt(p: Packet, size: nat, total: byte, i: byte, now: u64): Packet
    requires i * size <= |p.payload|
  {
    p.(payload := p.payload[i * size..Min(i * size + size, |p.payload|)],
       fragmentIndex := i, totalFragments := total, timestamp := now)
  }

  lemma CountIsCover(length: nat, size: nat, i: nat)
    requires size > 0
    ensures i < Count(length, size) <==> i * size < length
  {
    var n, c := length + size - 1, Count(length, size);
    assert n == size * c + n % size;
    if i < c {
      assert size * (i + 1) <= size * c;
    } else {
      assert size * c <= size * i;
    }
  }

  /** The fragments the source makes: their number is kept in eight bits. */
  function Fragments(p: Packet, size: nat, clock: nat -> u64): (fs: seq<Packet>)
    requires size > 0
    ensures |fs| == Count(|p.payload|, size) % 256
  {
    var total := Count(|p.payload|, size) % 256;
    seq(total, i requires 0 <= i < total =>
      CountIsCover(|p.payload|, size, i);
      FragmentAt(p, size, total, i, clock(i)))
  }

  method Fragment(p: Packet, maxPayloadSize: u16, clock: nat -> u64) returns (fragments: seq<Packet>)
    requires maxPayloadSize > 0
    ensures fragments == Fragments(p, maxPayloadSize, clock)
  {
    hide Count;
    fragments := [];
    var payloadSize := |p.payload|;
    var total: byte := (payloadSize + maxPayloadSize - 1) / maxPayloadSize % 256;
    assert total == Count(payloadSize, maxPayloadSize) % 256 by { CountFormula(payloadSize, maxPayloadSize); }
    var i: byte := 0;
    while i < total
      invariant i <= total
      invariant fragments == Fragments(p, maxPayloadSize, clock)[..i]
    {
      CountIsCover(payloadSize, maxPayloadSize, i);
      var start := i * maxPayloadSize;
      var end := Min(start + maxPayloadSize, payloadSize);
      var fragment := p.(payload := p.payload[start..end], fragmentIndex := i, totalFragments := total,
                         timestamp := clock(i));
      fragments := fragments + [fragment];
      i := i + 1;
    }
  }

  lemma CountFormula(length: nat, size: nat)
    requires size > 0
    ensures Count(length, size) == (length + size - 1) / size
  {
  }

  /** The payloads of a list of fragments, one after another. */
  function Joined(fs: seq<Packet>): seq<byte>
    decreases |fs|
  {
    if fs == [] then [] else Joined(fs[..|fs| - 1]) + fs[|fs| - 1].payload
  }

  lemma FragmentOf(p: Packet, size: nat, clock: nat -> u64, i: nat)
    requires size > 0 && i < Count(|p.payload|, size) % 256
    ensures i * size < |p.payload|
    ensures Fragments(p, size, clock)[i] == FragmentAt(p, size, Count(|p.payload|, size) % 256, i, clock(i))
  {
    hide Count;
    CountIsCover(|p.payload|, size, i);
  }

  lemma NextPiece(payload: seq<byte>, start: nat, size: nat)
    requires start < |payload|
    ensures payload[..start] + payload[start..Min(start + size, |payload|)] == payload[..Min(start + size, |payload|)]
  {
  }

  lemma {:induction false} JoinedPrefix(p: Packet, size: nat, clock: nat -> u64, n: nat)
    requires size > 0 && n <= |Fragments(p, size, clock)|
    ensures Joined(Fragments(p, size, clock)[..n]) == p.payload[..Min(n * size, |p.payload|)]
  {
    hide Count, Fragments;
    var fs := Fragments(p, size, clock);
    if n != 0 {
      var start := (n - 1) * size;
      assert n * size == start + size;
      JoinedPrefix(p, size, clock, n - 1);
      FragmentOf(p, size, clock, n - 1);
      assert fs[..n][..n - 1] == fs[..n - 1];
      NextPiece(p.payload, start, size);
    }
  }

  /** The fragments are numbered from 0, each stamped with the time it is made, none is empty or
      too long, and together they are a prefix of the payload. It is the whole payload exactly
      when at most 255 are needed. */
  lemma FragmentsPartition(p: Packet, size: nat, clock: nat -> u64)
    requires size > 0
    ensures var fs := Fragments(p, size, clock);
      && (forall i :: 0 <= i < |fs| ==>
            fs[i].fragmentIndex == i && fs[i].totalFragments == |fs| && 0 < |fs[i].payload| <= size
            && fs[i].timestamp == clock(i))
      && Joined(fs) <= p.payload
      && (Joined(fs) == p.payload <==> Count(|p.payload|, size) <= 255)
  {
    hide Count, Fragments, Joined;
    var fs, length := Fragments(p, size, clock), |p.payload|;
    forall i | 0 <= i < |fs|
      ensures fs[i].fragmentIndex == i && fs[i].totalFragments == |fs| && 0 < |fs[i].payload| <= size
      ensures fs[i].timestamp == clock(i)
    {
      FragmentOf(p, size, clock, i);
      PieceLength(length, i * size, size);
    }
    JoinedPrefix(p, size, clock, |fs|);
    assert fs[..|fs|] == fs;
    CountIsCover(length, size, |fs|);
    assert |fs| == Count(length, size) <==> Count(length, size) <= 255;
  }

  lemma PieceLength(length: nat, start: nat, size: nat)
    requires start < length && size > 0
    ensures 0 < Min(start + size, length) - start <= size
  {
  }

  // ----- Reassembly -----

  predicate Sorted(fs: seq<Packet>) {
    forall i, j :: 0 <= i < j < |fs| ==> fs[i].fragmentIndex <= fs[j].fragmentIndex
  }

  /** Some order by fragment index; fragments with equal indices end up in any order. */
  method SortByIndex(a: array<Packet>)
    modifies a
    ensures Sorted(a[..])
    ensures multiset(a[..]) == old(multiset(a[..]))
  {
    for i := 0 to a.Length
      invariant Sorted(a[..i])
      invariant multiset(a[..]) == old(multiset(a[..]))
    {
      Insert(a, i);
    }
    assert a[..a.Length] == a[..];
  }

  /** The first `i + 1` fragments are in order, except that the one at `j` may belong earlier. */
  predicate SortedBut(fs: seq<Packet>, i: nat, j: nat)
    requires j <= i < |fs|
  {
    forall m, n :: 0 <= m < n <= i && n != j ==> fs[m].fragmentIndex <= fs[n].fragmentIndex
  }

  function Swapped(fs: seq<Packet>, j: nat): (r: seq<Packet>)
    requires 0 < j < |fs|
    ensures multiset(r) == multiset(fs)
  {
    SwapKeepsAll(fs, j);
    fs[j - 1 := fs[j]][j := fs[j - 1]]
  }

  lemma SwapKeepsAll(fs: seq<Packet>, j: nat)
    requires 0 < j < |fs|
    ensures multiset(fs[j - 1 := fs[j]][j := fs[j - 1]]) == multiset(fs)
  {
  }

  lemma SwapMovesDown(fs: seq<Packet>, i: nat, j: nat)
    requires 0 < j <= i < |fs| && SortedBut(fs, i, j)
    requires fs[j - 1].fragmentIndex > fs[j].fragmentIndex
    ensures SortedBut(Swapped(fs, j), i, j - 1)
  {
  }

  method Insert(a: array<Packet>, i: nat)
    requires i < a.Length && Sorted(a[..i])
    modifies a
    ensures Sorted(a[..i + 1])
    ensures multiset(a[..]) == old(multiset(a[..]))
  {
    var j := i;
    assert SortedBut(a[..], i, j) by { assert a[..i] == a[..][..i]; }
    while j > 0 && a[j - 1].fragmentIndex > a[j].fragmentIndex
      invariant 0 <= j <= i
      invariant SortedBut(a[..], i, j)
      invariant multiset(a[..]) == old(multiset(a[..]))
    {
      hide SortedBut;
      SwapMovesDown(a[..], i, j);
      ghost var after := Swapped(a[..], j);
      a[j - 1], a[j] := a[j], a[j - 1];
      assert a[..] == after;
      j := j - 1;
    }
    SortedOnceInPlace(a[..], i, j);
    assert a[..][..i + 1] == a[..i + 1];
  }

  lemma SortedOnceInPlace(fs: seq<Packet>, i: nat, j: nat)
    requires j <= i < |fs| && SortedBut(fs, i, j)
    requires j > 0 ==> fs[j - 1].fragmentIndex <= fs[j].fragmentIndex
    ensures Sorted(fs[..i + 1])
  {
    forall m | 0 <= m < j ensures fs[m].fragmentIndex <= fs[j].fragmentIndex {
      if m < j - 1 { assert fs[m].fragmentIndex <= fs[j - 1].fragmentIndex; }
    }
  }

  /** Whether the reassembly complains in its log about a fragment that does not belong. */
  predicate Mismatched(order: seq<Packet>) {
    exists i :: 0 <= i < |order|
      && (order[i].sequence != order[0].sequence || order[i].totalFragments != order[0].totalFragments % 256)
  }

  /** The packet built from the fragments in `order`; mismatching fragments are not left out. */
  function Reassembled(order: seq<Packet>, ks: Keystream, nonce: Nonce, now: u64): Packet
    requires order != []
  {
    var first := order[0];
    var p := Packet(first.source, first.destination, first.kind, first.priority, first.sequence, now,
                    Joined(order), 0, first.payloadType, 0, 0);
    p.(crc := Crc(Body(p, ks, nonce)))
  }

  /** What comes of the fragments in `order`; with none at all the source throws. */
  function Outcome(order: seq<Packet>, ks: Keystream, nonce: Nonce, now: u64): Result<Packet> {
    if order == [] then Err(NoFragments) else Ok(Reassembled(order, ks, nonce, now))
  }

  method Reassemble(fragments: seq<Packet>, ks: Keystream, nonce: Nonce, now: u64)
    returns (r: Result<Packet>, mismatched: bool)
    ensures exists order: seq<Packet> ::
      Sorted(order) && multiset(order) == multiset(fragments)
      && r == Outcome(order, ks, nonce, now) && (mismatched <==> Mismatched(order))
  {
    hide Body, Crc, Sorted, Joined, Mismatched;
    NothingToSort();
    if fragments == [] {
      return Err(NoFragments), false;
    }
    var sorted := new Packet[|fragments|](i requires 0 <= i < |fragments| => fragments[i]);
    assert sorted[..] == fragments;
    SortByIndex(sorted);
    ghost var order := sorted[..];
    var payload;
    payload, mismatched := Collect(sorted);
    var packet := Packet(sorted[0].source, sorted[0].destination, sorted[0].kind, sorted[0].priority,
                         sorted[0].sequence, now, payload, 0, sorted[0].payloadType, 0, 0);
    var crc := TrailerOf(packet, ks, nonce);
    r := Ok(packet.(crc := crc));
  }

  lemma NothingToSort()
    ensures Sorted([]) && !Mismatched([])
  {
  }

  /** Joins the payloads of sorted fragments and compares each with the first. */
  method Collect(sorted: array<Packet>) returns (payload: seq<byte>, mismatched: bool)
    requires sorted.Length > 0
    ensures payload == Joined(sorted[..]) && (mismatched <==> Mismatched(sorted[..]))
  {
    var expectedId := sorted[0].sequence;
    var expectedTotal: byte := sorted[0].totalFragments % 256;
    payload := [];
    mismatched := false;
    ghost var order := sorted[..];
    for i := 0 to sorted.Length
      invariant payload == Joined(order[..i])
      invariant mismatched <==> exists k ::
        0 <= k < i && (order[k].sequence != expectedId || order[k].totalFragments != expectedTotal)
    {
      if sorted[i].sequence != expectedId || sorted[i].totalFragments != expectedTotal {
        mismatched := true;
      }
      payload := payload + sorted[i].payload;
      assert order[..i + 1][..i] == order[..i];
    }
    assert order[..|order|] == order;
  }

  /** The checksum at the end of a packet's frame. */
  method TrailerOf(packet: Packet, ks: Keystream, nonce: Nonce) returns (crc: bv16)
    ensures crc == Crc(Body(packet, ks, nonce))
  {
    hide Body, Crc, Received, Trailer;
    var data := Serialize(packet, ks, nonce);
    assert data[|data| - 2..] == Trailer(Crc(Body(packet, ks, nonce)));
    ReceivedTrailer(Crc(Body(packet, ks, nonce)), 0, 0);
    crc := Received(data[|data| - 2], data[|data| - 1]);
  }

  /** Nothing is complained about exactly when all fragments have the sequence number of the first
      and its number of fragments, and that number fits in eight bits. */
  lemma MismatchedIff(order: seq<Packet>)
    ensures !Mismatched(order) <==>
      forall p :: p in order ==>
        p.sequence == order[0].sequence && p.totalFragments == order[0].totalFragments && p.totalFragments <= 255
  {
    if !Mismatched(order) && order != [] {
      assert order[0].totalFragments == order[0].totalFragments % 256;
      forall p | p in order
        ensures p.sequence == order[0].sequence && p.totalFragments == order[0].totalFragments
        ensures p.totalFragments <= 255
      {
        var i :| 0 <= i < |order| && order[i] == p;
      }
    }
    if Mismatched(order) {
      var i :| 0 <= i < |order|
        && (order[i].sequence != order[0].sequence || order[i].totalFragments != order[0].totalFragments % 256);
      assert order[i] in order;
    }
  }

  /** A fragment of another packet is complained about and built in all the same. */
  lemma ForeignFragmentIsKept(a: Packet, b: Packet, ks: Keystream, nonce: Nonce, now: u64)
    requires a.fragmentIndex < b.fragmentIndex && a.sequence != b.sequence
    ensures Sorted([a, b]) && Mismatched([a, b])
    ensures var r := Outcome([a, b], ks, nonce, now);
      r.Ok? && r.value.payload == a.payload + b.payload && r.value.sequence == a.sequence
  {
    hide Body, Crc;
    var order := [a, b];
    assert order[1].sequence != order[0].sequence;
    assert order[..1] == [a] && [a][..0] == [];
    assert Joined([a]) == [] + a.payload;
  }
}
