/** The payload of a ROUTE packet: the ids still to visit, four bytes each, then the data. No
    length is written, so the reader takes every full word for an id. */
module RoutePayload {
  import opened Bytes

  /** The memory images of the ids, one after another. */
  function Words(route: seq<u32>): (s: seq<byte>)
    ensures |s| == 4 * |route|
    decreases |route|
  {
    if route == [] then [] else Words(route[..|route| - 1]) + Le(route[|route| - 1], 4)
  }

  function Compose(route: seq<u32>, data: seq<byte>): seq<byte> {
    Words(route) + data
  }

  /** The ids in the full words of `b`. */
  function Ids(b: seq<byte>): (route: seq<u32>)
    ensures |route| == |b| / 4
    decreases |b|
  {
    if |b| < 4 then [] else [ReadU32(b[..4])] + Ids(b[4..])
  }

  /** What is left after the full words. */
  function Rest(b: seq<byte>): (data: seq<byte>)
    ensures |data| == |b| % 4
  {
    b[|b| - |b| % 4..]
  }

  method SerializeRoutePacket(route: seq<u32>, data: seq<byte>) returns (buffer: seq<byte>)
    ensures buffer == Compose(route, data)
  {
    buffer := [];
    for i := 0 to |route|
      invariant buffer == Words(route[..i])
    {
      buffer := buffer + Le(route[i], 4);
      assert route[..i + 1][..i] == route[..i];
    }
    assert route[..|route|] == route;
    buffer := buffer + data;
  }

  method DeserializeRoutePayload(buffer: seq<byte>) returns (route: seq<u32>, data: seq<byte>)
    ensures route == Ids(buffer) && data == Rest(buffer)
  {
    hide UnLe, Ids;
    route := [];
    data := [];
    var offset := 0;
    while offset + 4 <= |buffer|
      invariant offset <= |buffer|
      invariant route + Ids(buffer[offset..]) == Ids(buffer)
      invariant Rest(buffer[offset..]) == Rest(buffer)
    {
      hide ReadU32, Rest;
      NextWord(buffer, offset);
      route := route + [ReadU32(buffer[offset..offset + 4])];
      offset := offset + 4;
    }
    ShortPayload(buffer[offset..]);
    if offset < |buffer| {
      data := buffer[offset..];
    }
  }

  lemma NextWord(buffer: seq<byte>, offset: nat)
    requires offset + 4 <= |buffer|
    ensures Ids(buffer[offset..]) == [ReadU32(buffer[offset..offset + 4])] + Ids(buffer[offset + 4..])
    ensures Rest(buffer[offset..]) == Rest(buffer[offset + 4..])
  {
    hide UnLe;
    var b := buffer[offset..];
    assert b[..4] == buffer[offset..offset + 4] && b[4..] == buffer[offset + 4..];
    assert |b| % 4 == |b[4..]| % 4;
  }

  lemma {:induction false} WordsFromFirst(id: u32, route: seq<u32>)
    ensures Words([id] + route) == Le(id, 4) + Words(route)
    decreases |route|
  {
    hide Le;
    if route == [] {
      assert ([id] + route)[..0] == [];
    } else {
      var n := |route| - 1;
      WordsFromFirst(id, route[..n]);
      assert ([id] + route)[..|route|] == [id] + route[..n];
    }
  }

  lemma IdsFromFirst(id: u32, b: seq<byte>)
    ensures Ids(Le(id, 4) + b) == [id] + Ids(b)
    ensures Rest(Le(id, 4) + b) == Rest(b)
  {
    hide Le, UnLe;
    var c := Le(id, 4) + b;
    assert c[..4] == Le(id, 4) && c[4..] == b;
    ReadBack32(id);
    assert |c| % 4 == |b| % 4;
  }

  lemma FirstWord(b: seq<byte>)
    requires |b| >= 4
    ensures Le(ReadU32(b[..4]), 4) + b[4..] == b
  {
    hide Le, UnLe;
    LeOfUnLe(b[..4]);
  }

  /** Nothing is lost by reading a payload and writing it again, whatever the bytes. */
  lemma {:induction false} RewriteRoute(b: seq<byte>)
    ensures Compose(Ids(b), Rest(b)) == b
    decreases |b|
  {
    hide Le, UnLe, ReadU32, Ids, Rest;
    if |b| < 4 {
      ShortPayload(b);
    } else {
      var id := ReadU32(b[..4]);
      RewriteRoute(b[4..]);
      FirstWord(b);
      IdsFromFirst(id, b[4..]);
      WordsFromFirst(id, Ids(b[4..]));
    }
  }

  lemma ShortPayload(b: seq<byte>)
    requires |b| < 4
    ensures Ids(b) == [] && Rest(b) == b
  {
  }

  /** The full words of the data are taken for ids. */
  lemma {:induction false} ReadRoute(route: seq<u32>, data: seq<byte>)
    ensures Ids(Compose(route, data)) == route + Ids(data)
    ensures Rest(Compose(route, data)) == Rest(data)
    decreases |route|
  {
    hide Le, UnLe, Ids, Rest;
    if route == [] {
      assert Compose(route, data) == data;
    } else {
      ReadRoute(route[1..], data);
      assert [route[0]] + route[1..] == route;
      WordsFromFirst(route[0], route[1..]);
      IdsFromFirst(route[0], Compose(route[1..], data));
      assert Compose(route, data) == Le(route[0], 4) + Compose(route[1..], data);
    }
  }

  /** Route and data come back as written exactly when the data is shorter than a word. */
  lemma RouteRoundTrip(route: seq<u32>, data: seq<byte>)
    ensures (Ids(Compose(route, data)) == route && Rest(Compose(route, data)) == data) <==> |data| < 4
  {
    hide Compose, Rest;
    ReadRoute(route, data);
    if |data| < 4 {
      ShortPayload(data);
    }
  }

  /** Dropping the first id and writing the rest drops the first four bytes. */
  lemma ForwardDropsOneWord(b: seq<byte>)
    requires |b| >= 4
    ensures Compose(Ids(b)[1..], Rest(b)) == b[4..]
  {
    hide Le, UnLe, ReadU32, Ids, Rest, Compose;
    var id := ReadU32(b[..4]);
    FirstWord(b);
    IdsFromFirst(id, b[4..]);
    assert ([id] + Ids(b[4..]))[1..] == Ids(b[4..]);
    RewriteRoute(b[4..]);
  }
}
