/** A packet sent in fragments: fragment, serialize each, deliver in any order, deserialize,
    reassemble. */
module Pipeline {
  import opened Bytes
  import opened Checksum
  import opened Packets
  import opened Fragmentation

  /** The packets a receiver gets out of the frames delivered to it; rejected ones are lost. */
  function Accepted(frames: seq<seq<byte>>, ks: Keystream): seq<Packet>
    decreases |frames|
  {
    if frames == [] then []
    else AcceptedFrom(frames[0], ks) + Accepted(frames[1..], ks)
  }

  function AcceptedFrom(frame: seq<byte>, ks: Keystream): seq<Packet> {
    if |frame| >= HEADER_SIZE + 2 && Parse(frame, ks).Ok? then [Parse(frame, ks).value] else []
  }

  /** The frames of a list of packets, each written with its own nonce. */
  function Frames(fs: seq<Packet>, ks: Keystream, nonces: nat -> Nonce): (r: seq<seq<byte>>)
    ensures |r| == |fs|
    decreases |fs|
  {
    if fs == [] then []
    else Frames(fs[..|fs| - 1], ks, nonces) + [Frame(fs[|fs| - 1], ks, nonces(|fs| - 1))]
  }

  /** The packets as they come back: only the crc field has changed. */
  function Checked(fs: seq<Packet>, ks: Keystream, nonces: nat -> Nonce): (r: seq<Packet>)
    ensures |r| == |fs|
    ensures forall i :: 0 <= i < |fs| ==> r[i] == fs[i].(crc := r[i].crc)
    decreases |fs|
  {
    if fs == [] then []
    else
      var last := fs[|fs| - 1];
      Checked(fs[..|fs| - 1], ks, nonces) + [last.(crc := Crc(Body(last, ks, nonces(|fs| - 1))))]
  }

  lemma {:induction false} AcceptedOfConcat(a: seq<seq<byte>>, b: seq<seq<byte>>, ks: Keystream)
    ensures Accepted(a + b, ks) == Accepted(a, ks) + Accepted(b, ks)
    decreases |a|
  {
    hide AcceptedFrom;
    if a == [] {
      assert a + b == b;
    } else {
      assert (a + b)[1..] == a[1..] + b;
      AcceptedOfConcat(a[1..], b, ks);
    }
  }

  lemma AcceptedOfOne(frame: seq<byte>, ks: Keystream)
    ensures Accepted([frame], ks) == AcceptedFrom(frame, ks)
  {
    hide AcceptedFrom;
    assert [frame][1..] == [];
  }

  lemma {:induction false} AcceptedOfFrames(fs: seq<Packet>, ks: Keystream, nonces: nat -> Nonce)
    ensures Accepted(Frames(fs, ks, nonces), ks) == Checked(fs, ks, nonces)
    decreases |fs|
  {
    hide Frame, Parse, Crc, Accepted;
    if fs == [] {
      NothingAccepted(ks);
    } else {
      var n := |fs| - 1;
      AcceptedOfFrames(fs[..n], ks, nonces);
      AcceptedOfConcat(Frames(fs[..n], ks, nonces), [Frame(fs[n], ks, nonces(n))], ks);
      AcceptedOfOne(Frame(fs[n], ks, nonces(n)), ks);
      FrameRoundTrip(fs[n], ks, nonces(n));
    }
  }

  lemma NothingAccepted(ks: Keystream)
    ensures Accepted([], ks) == []
  {
  }

  /** What is accepted does not depend on the order of delivery, except for its own order. */
  lemma {:induction false} AcceptedInAnyOrder(a: seq<seq<byte>>, b: seq<seq<byte>>, ks: Keystream)
    requires multiset(a) == multiset(b)
    ensures multiset(Accepted(a, ks)) == multiset(Accepted(b, ks))
    decreases |a|
  {
    hide AcceptedFrom, Accepted;
    SameMembers(a, b);
    if a != [] {
      var k :| 0 <= k < |b| && b[k] == a[0];
      var x, before, after := [a[0]], b[..k], b[k + 1..];
      assert a == x + a[1..] && b == before + x + after;
      OneOut(a, b, k);
      AcceptedInAnyOrder(a[1..], before + after, ks);
      AcceptedOfConcat(x, a[1..], ks);
      AcceptedOfConcat(before + x, after, ks);
      AcceptedOfConcat(before, x, ks);
      AcceptedOfConcat(before, after, ks);
      InFront(Accepted(x, ks), Accepted(before, ks), Accepted(after, ks), Accepted(a[1..], ks));
    }
  }

  lemma InFront<T>(x: seq<T>, before: seq<T>, after: seq<T>, rest: seq<T>)
    requires multiset(rest) == multiset(before + after)
    ensures multiset(x + rest) == multiset(before + x + after)
  {
  }

  /** Fragments with the same index are the same. */
  predicate TellsApart(fs: seq<Packet>) {
    forall i, j :: 0 <= i < |fs| && 0 <= j < |fs| && fs[i].fragmentIndex == fs[j].fragmentIndex ==> fs[i] == fs[j]
  }

  /** The first of two sorted lists of the same fragments. */
  lemma SameHead(s: seq<Packet>, t: seq<Packet>)
    requires s != [] && t != [] && s[0] in t && t[0] in s && Sorted(s) && Sorted(t) && TellsApart(t)
    ensures s[0] == t[0]
  {
    var k :| 0 <= k < |t| && t[k] == s[0];
    var m :| 0 <= m < |s| && s[m] == t[0];
    assert s[0].fragmentIndex <= s[m].fragmentIndex && t[0].fragmentIndex <= t[k].fragmentIndex;
  }

  lemma SameTail<T>(s: seq<T>, t: seq<T>)
    requires s != [] && t != [] && s[0] == t[0] && multiset(s) == multiset(t)
    ensures multiset(s[1..]) == multiset(t[1..])
  {
    assert s == [s[0]] + s[1..] && t == [t[0]] + t[1..];
    assert multiset(s[1..]) == multiset(s) - multiset{s[0]};
    assert multiset(t[1..]) == multiset(t) - multiset{t[0]};
  }

  lemma SameMembers<T>(s: seq<T>, t: seq<T>)
    requires multiset(s) == multiset(t)
    ensures |s| == |t|
    ensures s != [] ==> s[0] in t && t[0] in s
  {
    assert |multiset(s)| == |multiset(t)|;
    if s != [] {
      assert s[0] in multiset(t) && t[0] in multiset(s);
    }
  }

  /** Sorting fragments that their indices tell apart has one possible outcome. */
  lemma {:induction false} OneSortedOrder(s: seq<Packet>, t: seq<Packet>)
    requires multiset(s) == multiset(t) && Sorted(s) && Sorted(t) && TellsApart(t)
    ensures s == t
    decreases |s|
  {
    SameMembers(s, t);
    if s != [] {
      SameHead(s, t);
      SameTail(s, t);
      OneSortedOrder(s[1..], t[1..]);
      assert s == [s[0]] + s[1..] && t == [t[0]] + t[1..];
    }
  }

  // ----- Picking from a list -----

  /** The entries of `xs` at the positions listed in `which`; some may be left out, some repeated. */
  function Pick<T>(xs: seq<T>, which: seq<nat>): (r: seq<T>)
    requires Within(which, |xs|)
    ensures |r| == |which|
  {
    seq(|which|, i requires 0 <= i < |which| => xs[which[i]])
  }

  predicate Within(which: seq<nat>, n: nat) {
    forall i :: 0 <= i < |which| ==> which[i] < n
  }

  predicate Ascending(which: seq<nat>) {
    forall i, j :: 0 <= i < j < |which| ==> which[i] <= which[j]
  }

  predicate NoneTwice(which: seq<nat>) {
    forall i, j :: 0 <= i < j < |which| ==> which[i] != which[j]
  }

  predicate NoneMissing(which: seq<nat>, n: nat) {
    forall k: nat :: k < n ==> k in which
  }

  lemma WithinAnyOrder(a: seq<nat>, b: seq<nat>, n: nat)
    requires multiset(a) == multiset(b) && Within(a, n)
    ensures Within(b, n)
  {
    forall i | 0 <= i < |b| ensures b[i] < n {
      assert b[i] in multiset(a);
    }
  }

  lemma PickOfConcat<T>(xs: seq<T>, a: seq<nat>, b: seq<nat>)
    requires Within(a + b, |xs|)
    ensures Within(a, |xs|) && Within(b, |xs|)
    ensures Pick(xs, a + b) == Pick(xs, a) + Pick(xs, b)
  {
    forall i | 0 <= i < |a| ensures a[i] < |xs| { assert (a + b)[i] == a[i]; }
    forall i | 0 <= i < |b| ensures b[i] < |xs| { assert (a + b)[|a| + i] == b[i]; }
  }

  lemma {:induction false} PickInAnyOrder<T>(xs: seq<T>, a: seq<nat>, b: seq<nat>)
    requires multiset(a) == multiset(b) && Within(a, |xs|) && Within(b, |xs|)
    ensures multiset(Pick(xs, a)) == multiset(Pick(xs, b))
    decreases |a|
  {
    hide Pick, Within;
    SameMembers(a, b);
    if a != [] {
      var k :| 0 <= k < |b| && b[k] == a[0];
      var x, rest, before, after := [a[0]], a[1..], b[..k], b[k + 1..];
      assert a == x + rest && b == before + x + after;
      PickOfConcat(xs, x, rest);
      PickOfConcat(xs, before + x, after);
      PickOfConcat(xs, before, x);
      WithinParts(before, after, |xs|);
      PickOfConcat(xs, before, after);
      OneOut(a, b, k);
      PickInAnyOrder(xs, rest, before + after);
      InFront(Pick(xs, x), Pick(xs, before), Pick(xs, after), Pick(xs, rest));
    }
  }

  lemma WithinParts(a: seq<nat>, b: seq<nat>, n: nat)
    requires Within(a, n) && Within(b, n)
    ensures Within(a + b, n)
  {
  }

  lemma OneOut<T>(a: seq<T>, b: seq<T>, k: nat)
    requires a != [] && k < |b| && b[k] == a[0] && multiset(a) == multiset(b)
    ensures multiset(a[1..]) == multiset(b[..k] + b[k + 1..])
  {
    var x, before, after := [a[0]], b[..k], b[k + 1..];
    assert b == before + x + after;
    InFront(x, before, after, before + after);
    SameTail(a, x + (before + after));
    assert (x + (before + after))[1..] == before + after;
  }

  lemma {:induction false} JoinedOfChecked(fs: seq<Packet>, ks: Keystream, nonces: nat -> Nonce)
    ensures Joined(Checked(fs, ks, nonces)) == Joined(fs)
    decreases |fs|
  {
    hide Crc, Body;
    if fs != [] {
      var n := |fs| - 1;
      JoinedOfChecked(fs[..n], ks, nonces);
      assert Checked(fs, ks, nonces)[..n] == Checked(fs[..n], ks, nonces);
    }
  }

  // ----- The whole path -----

  /** The frames on which a packet travels. */
  function Sent(p: Packet, size: nat, clock: nat -> u64, ks: Keystream, nonces: nat -> Nonce): seq<seq<byte>>
    requires size > 0
  {
    Frames(Fragments(p, size, clock), ks, nonces)
  }

  /** Every field but the payload, the timestamp, the checksum and the numbering of fragments. */
  predicate SameOrigin(p: Packet, r: Packet) {
    r.source == p.source && r.destination == p.destination && r.kind == p.kind && r.priority == p.priority
    && r.sequence == p.sequence && r.payloadType == p.payloadType
  }

  lemma {:induction false} PickedFrames(fs: seq<Packet>, ks: Keystream, nonces: nat -> Nonce, which: seq<nat>)
    requires Within(which, |fs|)
    ensures Accepted(Pick(Frames(fs, ks, nonces), which), ks) == Pick(Checked(fs, ks, nonces), which)
    decreases |which|
  {
    hide Accepted, Frames, Checked, AcceptedFrom;
    var frames := Pick(Frames(fs, ks, nonces), which);
    if which == [] {
      NothingAccepted(ks);
    } else {
      var n := |which| - 1;
      PickedFrames(fs, ks, nonces, which[..n]);
      assert frames == Pick(Frames(fs, ks, nonces), which[..n]) + [frames[n]];
      AcceptedOfConcat(frames[..n], [frames[n]], ks);
      AcceptedOfOne(frames[n], ks);
      AcceptedOfNth(fs, ks, nonces, which[n]);
    }
  }

  lemma {:induction false} AcceptedOfNth(fs: seq<Packet>, ks: Keystream, nonces: nat -> Nonce, i: nat)
    requires i < |fs|
    ensures AcceptedFrom(Frames(fs, ks, nonces)[i], ks) == [Checked(fs, ks, nonces)[i]]
    decreases |fs|
  {
    hide Frame, Parse, Crc;
    var n := |fs| - 1;
    if i < n {
      AcceptedOfNth(fs[..n], ks, nonces, i);
    } else {
      FrameRoundTrip(fs[n], ks, nonces(n));
    }
  }

  lemma {:induction false} JoinedOfPicked(fs: seq<Packet>, ks: Keystream, nonces: nat -> Nonce, which: seq<nat>)
    requires Within(which, |fs|)
    ensures Joined(Pick(Checked(fs, ks, nonces), which)) == Joined(Pick(fs, which))
    decreases |which|
  {
    hide Checked;
    if which != [] {
      var n := |which| - 1;
      JoinedOfPicked(fs, ks, nonces, which[..n]);
      assert Pick(Checked(fs, ks, nonces), which)[..n] == Pick(Checked(fs, ks, nonces), which[..n]);
      assert Pick(fs, which)[..n] == Pick(fs, which[..n]);
    }
  }

  /** Frames may be lost, repeated and reordered on the way: those delivered are listed in
      `which`, and `sorted` lists the same in ascending order. However the sort breaks ties, the
      pieces delivered come back in the order of the packet, and nothing complains. */
  lemma WhatComesBack(p: Packet, size: nat, clock: nat -> u64, ks: Keystream, nonces: nat -> Nonce,
                      which: seq<nat>, sorted: seq<nat>, order: seq<Packet>, nonce: Nonce, now: u64)
    requires size > 0 && Within(which, |Sent(p, size, clock, ks, nonces)|)
    requires multiset(sorted) == multiset(which) && Ascending(sorted)
    requires multiset(order) == multiset(Accepted(Pick(Sent(p, size, clock, ks, nonces), which), ks)) && Sorted(order)
    ensures Within(sorted, |Fragments(p, size, clock)|) && !Mismatched(order)
    ensures var r := Outcome(order, ks, nonce, now);
      if which == [] then r == Err(NoFragments)
      else r.Ok? && SameOrigin(p, r.value) && r.value.crc == Crc(Body(r.value, ks, nonce))
           && r.value.payload == Joined(Pick(Fragments(p, size, clock), sorted)) && r.value.timestamp == now
           && r.value.fragmentIndex == 0 && r.value.totalFragments == 0
  {
    hide Crc, Le, Count, Accepted, Frames, Checked, Joined, Encrypt, Fragments, Pick, FragmentAt;
    var fs := Fragments(p, size, clock);
    var checked := Checked(fs, ks, nonces);
    WithinAnyOrder(which, sorted, |fs|);
    PickedFrames(fs, ks, nonces, which);
    PickInAnyOrder(checked, which, sorted);
    PickedAreSorted(p, size, clock, ks, nonces, sorted);
    OneSortedOrder(order, Pick(checked, sorted));
    JoinedOfPicked(fs, ks, nonces, sorted);
    SameMembers(sorted, which);
    PickedBelong(p, size, clock, ks, nonces, sorted);
  }

  lemma PickedAreSorted(p: Packet, size: nat, clock: nat -> u64, ks: Keystream, nonces: nat -> Nonce, which: seq<nat>)
    requires size > 0 && Within(which, |Fragments(p, size, clock)|) && Ascending(which)
    ensures Sorted(Pick(Checked(Fragments(p, size, clock), ks, nonces), which))
    ensures TellsApart(Pick(Checked(Fragments(p, size, clock), ks, nonces), which))
  {
    hide Checked, Fragments, Joined, Count;
    FragmentsPartition(p, size, clock);
  }

  lemma PickedBelong(p: Packet, size: nat, clock: nat -> u64, ks: Keystream, nonces: nat -> Nonce, which: seq<nat>)
    requires size > 0 && Within(which, |Fragments(p, size, clock)|)
    ensures var order := Pick(Checked(Fragments(p, size, clock), ks, nonces), which);
      !Mismatched(order)
      && (order != [] ==> SameOrigin(p, order[0]))
  {
    hide Checked, Fragments, Count;
    var fs := Fragments(p, size, clock);
    forall i | 0 <= i < |fs| ensures SameOrigin(p, fs[i]) && fs[i].totalFragments == |fs| {
      FragmentOf(p, size, clock, i);
    }
  }

  function Numbers(n: nat): (which: seq<nat>)
    ensures |which| == n && forall i :: 0 <= i < n ==> which[i] == i
  {
    seq(n, i => i)
  }

  lemma PickAll<T>(xs: seq<T>)
    ensures Pick(xs, Numbers(|xs|)) == xs
  {
  }

  /** With nothing lost and nothing repeated: however the frames are ordered on arrival, the
      packet has every field and a prefix of the payload. The whole of it comes back exactly
      when 1 to 255 fragments are needed; reassembly fails exactly when their number is a
      multiple of 256, none among them. The timestamp is the time of reassembly. */
  lemma PipelineDelivers(p: Packet, size: nat, clock: nat -> u64, ks: Keystream, nonces: nat -> Nonce,
                         delivered: seq<seq<byte>>, order: seq<Packet>, nonce: Nonce, now: u64)
    requires size > 0
    requires multiset(delivered) == multiset(Sent(p, size, clock, ks, nonces))
    requires multiset(order) == multiset(Accepted(delivered, ks)) && Sorted(order)
    ensures !Mismatched(order)
    ensures var r, count := Outcome(order, ks, nonce, now), Count(|p.payload|, size);
      && (r == Err(NoFragments) <==> count % 256 == 0)
      && (r.Ok? ==> SameOrigin(p, r.value) && r.value.payload <= p.payload
                    && r.value.crc == Crc(Body(r.value, ks, nonce))
                    && (r.value.timestamp == p.timestamp <==> now == p.timestamp))
      && (r.Ok? && r.value.payload == p.payload <==> 1 <= count <= 255)
  {
    hide Crc, Le, Count, Accepted, Frames, Joined, Fragments, Pick, Body, SameOrigin, Reassembled, Sorted, Mismatched;
    var sent, fs := Sent(p, size, clock, ks, nonces), Fragments(p, size, clock);
    AcceptedInAnyOrder(delivered, sent, ks);
    PickAll(sent);
    PickAll(fs);
    WhatComesBack(p, size, clock, ks, nonces, Numbers(|fs|), Numbers(|fs|), order, nonce, now);
    FragmentsPartition(p, size, clock);
  }

  // ----- Lost and repeated fragments -----

  lemma JoinedOneMore(fs: seq<Packet>, which: seq<nat>)
    requires Within(which, |fs|) && which != []
    ensures var n := |which| - 1;
      Joined(Pick(fs, which)) == Joined(Pick(fs, which[..n])) + fs[which[n]].payload
  {
    var n := |which| - 1;
    assert Pick(fs, which)[..n] == Pick(fs, which[..n]);
  }

  lemma JoinedTo(fs: seq<Packet>, n: nat)
    requires n < |fs|
    ensures Joined(fs[..n + 1]) == Joined(fs[..n]) + fs[n].payload
  {
    assert fs[..n + 1][..n] == fs[..n];
  }

  predicate NoneEmpty(fs: seq<Packet>) {
    forall i :: 0 <= i < |fs| ==> fs[i].payload != []
  }

  /** Leaving out any of the first `n` fragments makes the payload shorter. */
  lemma {:induction false} LossShortens(fs: seq<Packet>, n: nat, which: seq<nat>)
    requires n <= |fs| && NoneEmpty(fs) && Within(which, n) && Ascending(which) && NoneTwice(which)
    ensures |which| <= n && |Joined(Pick(fs, which))| <= |Joined(fs[..n])|
    ensures |Joined(Pick(fs, which))| == |Joined(fs[..n])| || |which| == n ==> which == Numbers(n)
    decreases n
  {
    hide Joined, Pick;
    if n == 0 {
      assert which == [] && Pick(fs, which) == fs[..0];
    } else {
      JoinedTo(fs, n - 1);
      var k := |which| - 1;
      if which != [] && which[k] == n - 1 {
        JoinedOneMore(fs, which);
        LossShortens(fs, n - 1, which[..k]);
      } else {
        LossShortens(fs, n - 1, which);
      }
    }
  }

  lemma DropLast(which: seq<nat>, n: nat)
    requires n > 0 && Within(which, n) && Ascending(which) && NoneMissing(which, n)
    ensures var k := |which| - 1;
      && k >= 0 && which[k] == n - 1 && Ascending(which[..k]) && Within(which[..k], n)
      && (if n - 1 in which[..k] then NoneMissing(which[..k], n)
          else Within(which[..k], n - 1) && NoneMissing(which[..k], n - 1))
  {
    var k := |which| - 1;
    assert n - 1 in which;
    assert which == which[..k] + [which[k]];
    forall m: nat | m < n && m != which[k] ensures m in which[..k] { assert m in which; }
  }

  lemma NumbersAreAll(which: seq<nat>, n: nat)
    ensures NoneMissing(Numbers(n), n) && NoneTwice(Numbers(n))
    ensures n > 0 && which != [] && which[|which| - 1] == n - 1 && which[..|which| - 1] == Numbers(n - 1) ==>
      which == Numbers(n)
  {
    forall m: nat | m < n ensures m in Numbers(n) { assert Numbers(n)[m] == m; }
  }

  /** Repeating any of the first `n` fragments makes the payload longer. */
  lemma {:induction false} RepeatLengthens(fs: seq<Packet>, n: nat, which: seq<nat>)
    requires n <= |fs| && NoneEmpty(fs) && Within(which, n) && Ascending(which) && NoneMissing(which, n)
    ensures |which| >= n && |Joined(Pick(fs, which))| >= |Joined(fs[..n])|
    ensures |Joined(Pick(fs, which))| == |Joined(fs[..n])| || |which| == n ==> which == Numbers(n)
    decreases |which|
  {
    hide Joined, Pick, Ascending, NoneMissing, Numbers;
    if n == 0 {
      assert which == [] && Pick(fs, which) == fs[..0];
    } else {
      var k := |which| - 1;
      DropLast(which, n);
      JoinedTo(fs, n - 1);
      JoinedOneMore(fs, which);
      if n - 1 in which[..k] {
        RepeatLengthens(fs, n, which[..k]);
      } else {
        RepeatLengthens(fs, n - 1, which[..k]);
        NumbersAreAll(which, n);
      }
    }
  }

  /** What comes back is what was sent: with no repetitions exactly when nothing is lost, and
      with no losses exactly when nothing is repeated. */
  lemma WholeIff(p: Packet, size: nat, clock: nat -> u64, sorted: seq<nat>)
    requires size > 0 && Within(sorted, |Fragments(p, size, clock)|) && Ascending(sorted)
    ensures var fs := Fragments(p, size, clock);
      && (NoneTwice(sorted) ==> (Joined(Pick(fs, sorted)) == Joined(fs) <==> NoneMissing(sorted, |fs|)))
      && (NoneMissing(sorted, |fs|) ==> (Joined(Pick(fs, sorted)) == Joined(fs) <==> NoneTwice(sorted)))
  {
    hide Joined, Pick, Fragments, Count;
    var fs := Fragments(p, size, clock);
    FragmentsPartition(p, size, clock);
    assert fs[..|fs|] == fs;
    PickAll(fs);
    NumbersAreAll(sorted, |fs|);
    if NoneTwice(sorted) { LossShortens(fs, |fs|, sorted); }
    if NoneMissing(sorted, |fs|) { RepeatLengthens(fs, |fs|, sorted); }
  }

  /** A loss and a repetition can make up for each other: of two equal pieces the first arrives
      twice and the second never. */
  lemma LossAndRepeatCanCancel(p: Packet, b: byte, clock: nat -> u64)
    requires p.payload == [b, b]
    ensures |Fragments(p, 1, clock)| == 2
    ensures Joined(Pick(Fragments(p, 1, clock), [0, 0])) == p.payload && !NoneMissing([0, 0], 2)
  {
    hide Fragments;
    var fs := Fragments(p, 1, clock);
    FragmentOf(p, 1, clock, 0);
    assert Pick(fs, [0, 0]) == [fs[0], fs[0]];
    assert [fs[0], fs[0]][..1] == [fs[0]] && [fs[0]][..0] == [];
    assert Joined([fs[0]]) == [b];
    assert 1 !in [0, 0];
  }
}
