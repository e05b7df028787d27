/** The table of peer addresses of src/device_meta/device_ip_table.cpp and its wire format:
    for each entry the id, the length of the address and the address. */
module IpTable {
  import opened Bytes
  import opened Addresses
  import opened Iteration

  datatype Entry = Entry(id: u32, ip: Text)

  datatype Status = Done | IncompleteId | MissingLength | BadLength | NoColon

  datatype Loaded = Loaded(table: map<u32, Text>, status: Status)

  /** The length is narrowed to 32 bits. */
  function Record(e: Entry): (s: seq<byte>)
    ensures |s| == 8 + |e.ip|
  {
    Le(e.id, 4) + Le(|e.ip|, 4) + e.ip
  }

  function Records(es: seq<Entry>): seq<byte>
    decreases |es|
  {
    if es == [] then [] else Records(es[..|es| - 1]) + Record(es[|es| - 1])
  }

  /** An entry the reader takes back. */
  predicate Valid(e: Entry) {
    COLON in e.ip && |e.ip| < 0x1_0000_0000
  }

  predicate AllValid(es: seq<Entry>) {
    forall i :: 0 <= i < |es| ==> Valid(es[i])
  }

  function Applied(t: map<u32, Text>, es: seq<Entry>): map<u32, Text>
    decreases |es|
  {
    if es == [] then t else Applied(t, es[..|es| - 1])[es[|es| - 1].id := es[|es| - 1].ip]
  }

  /** The first entry of `data`, or what is wrong with it. */
  function First(data: seq<byte>): (r: (Status, Entry))
    requires data != []
    ensures r.0.Done? ==> |Record(r.1)| <= |data|
  {
    var none := Entry(0, []);
    if |data| < 4 then (IncompleteId, none)
    else if |data| < 8 then (MissingLength, none)
    else
      var length := ReadU32(data[4..8]);
      if length == 0 || 8 + length > |data| then (BadLength, none)
      else
        var ip := data[8..8 + length];
        if COLON !in ip then (NoColon, none) else (Done, Entry(ReadU32(data[..4]), ip))
  }

  function Load(t: map<u32, Text>, data: seq<byte>): Loaded
    decreases |data|
  {
    if data == [] then Loaded(t, Done)
    else
      var (status, e) := First(data);
      if !status.Done? then Loaded(t, status) else Load(t[e.id := e.ip], data[|Record(e)|..])
  }

  class DeviceIPTable {
    var table: map<u32, Text>

    constructor ()
      ensures table == map[]
    {
      table := map[];
    }

    method UpdateIp(id: u32, ip: Text)
      modifies this
      ensures table == old(table)[id := ip]
    {
      table := table[id := ip];
    }

    method GetIp(id: u32) returns (r: Option<Text>)
      ensures r == if id in table then Some(table[id]) else None
    {
      r := if id in table then Some(table[id]) else None;
    }

    method RemoveIp(id: u32)
      modifies this
      ensures table == old(table) - {id}
    {
      table := table - {id};
    }

    /** The records of all entries, in the order in which the table is iterated. */
    method Serialize(order: seq<u32>) returns (buffer: seq<byte>)
      requires Enumerates(order, table.Keys)
      ensures buffer == Records(EntriesOf(order, table))
    {
      hide Le, Enumerates;
      OnlyKeys(order, table);
      buffer := [];
      for i := 0 to |order|
        invariant buffer == Records(EntriesOf(order[..i], table))
      {
        var ip := table[order[i]];
        buffer := buffer + Le(order[i], 4);
        buffer := buffer + Le(|ip|, 4);
        buffer := buffer + ip;
        ghost var es := EntriesOf(order[..i + 1], table);
        assert es[..i] == EntriesOf(order[..i], table);
      }
      assert order[..|order|] == order;
    }

    /** Entries read before an error stay in the table. */
    method Deserialize(data: seq<byte>) returns (status: Status)
      modifies this
      ensures Loaded(table, status) == Load(old(table), data)
    {
      hide UnLe, First;
      var i := 0;
      while i < |data|
        invariant 0 <= i <= |data|
        invariant Load(table, data[i..]) == Load(old(table), data)
      {
        FirstAt(data, i);
        if i + 4 > |data| {
          return IncompleteId;
        }
        var id := ReadU32(data[i..i + 4]);
        i := i + 4;
        if i + 4 > |data| {
          return MissingLength;
        }
        var length := ReadU32(data[i..i + 4]);
        i := i + 4;
        if length == 0 || i + length > |data| {
          return BadLength;
        }
        var ip := data[i..i + length];
        i := i + length;
        if COLON !in ip {
          return NoColon;
        }
        assert data[i - length - 8..][8 + length..] == data[i..];
        table := table[id := ip];
      }
      status := Done;
    }
  }

  lemma FirstAt(data: seq<byte>, i: nat)
    requires i < |data|
    ensures var r := First(data[i..]);
      if i + 4 > |data| then r.0 == IncompleteId
      else if i + 8 > |data| then r.0 == MissingLength
      else
        var length := ReadU32(data[i + 4..i + 8]);
        if length == 0 || i + 8 + length > |data| then r.0 == BadLength
        else if COLON !in data[i + 8..i + 8 + length] then r.0 == NoColon
        else r == (Done, Entry(ReadU32(data[i..i + 4]), data[i + 8..i + 8 + length]))
  {
    hide UnLe;
    var d := data[i..];
    if |d| >= 8 {
      assert d[4..8] == data[i + 4..i + 8] && d[..4] == data[i..i + 4];
      var length := ReadU32(d[4..8]);
      if 8 + length <= |d| { assert d[8..8 + length] == data[i + 8..i + 8 + length]; }
    }
  }

  function EntriesOf(order: seq<u32>, table: map<u32, Text>): (es: seq<Entry>)
    requires forall k :: k in order ==> k in table
    ensures |es| == |order|
  {
    seq(|order|, i requires 0 <= i < |order| => Entry(order[i], table[order[i]]))
  }

  // ----- The reader undoes the writer -----

  lemma FirstOfRecord(e: Entry, rest: seq<byte>)
    requires |e.ip| < 0x1_0000_0000
    ensures First(Record(e) + rest) == if e.ip == [] then (BadLength, Entry(0, []))
      else if COLON !in e.ip then (NoColon, Entry(0, [])) else (Done, e)
  {
    hide Le, UnLe;
    var d := Record(e) + rest;
    assert d[..4] == Le(e.id, 4) && d[4..8] == Le(|e.ip|, 4) && d[8..8 + |e.ip|] == e.ip;
    ReadBack32(e.id);
    ReadBack32(|e.ip|);
  }

  lemma LoadOne(t: map<u32, Text>, e: Entry, rest: seq<byte>)
    requires |e.ip| < 0x1_0000_0000
    ensures Valid(e) ==> Load(t, Record(e) + rest) == Load(t[e.id := e.ip], rest)
    ensures !Valid(e) ==> Load(t, Record(e) + rest) == Loaded(t, if e.ip == [] then BadLength else NoColon)
  {
    hide Record, First;
    FirstOfRecord(e, rest);
    assert (Record(e) + rest)[|Record(e)|..] == rest;
  }

  lemma {:induction false} LoadValid(t: map<u32, Text>, es: seq<Entry>, rest: seq<byte>)
    requires AllValid(es)
    ensures Load(t, Records(es) + rest) == Load(Applied(t, es), rest)
    decreases |es|
  {
    hide Load, Record;
    if es == [] {
      assert Records(es) + rest == rest;
    } else {
      var n := |es| - 1;
      LoadValid(t, es[..n], Record(es[n]) + rest);
      assert Records(es) + rest == Records(es[..n]) + (Record(es[n]) + rest);
      LoadOne(Applied(t, es[..n]), es[n], rest);
    }
  }

  lemma FirstRewritten(data: seq<byte>)
    requires data != [] && First(data).0.Done?
    ensures Valid(First(data).1)
    ensures data == Record(First(data).1) + data[|Record(First(data).1)|..]
  {
    hide Le, UnLe;
    LeOfUnLe(data[..4]);
    LeOfUnLe(data[4..8]);
    var e := First(data).1;
    var n := |e.ip|;
    assert n == ReadU32(data[4..8]) && e.ip == data[8..8 + n] && e.id == ReadU32(data[..4]);
    assert Le(e.id, 4) == data[..4] && Le(n, 4) == data[4..8];
    assert data == data[..4] + data[4..8] + data[8..8 + n] + data[8 + n..];
  }

  /** Every byte string is a list of valid records followed by nothing or by a bad record, and
      the table ends up overridden by exactly those records. */
  lemma {:induction false} LoadReadsRecords(t: map<u32, Text>, data: seq<byte>) returns (es: seq<Entry>, bad: seq<byte>)
    ensures AllValid(es) && data == Records(es) + bad
    ensures bad == [] || !First(bad).0.Done?
    ensures Load(t, data) == Loaded(Applied(t, es), if bad == [] then Done else First(bad).0)
    decreases |data|
  {
    hide First, Record;
    if data == [] || !First(data).0.Done? {
      es, bad := [], data;
    } else {
      var e := First(data).1;
      FirstRewritten(data);
      var rest := data[|Record(e)|..];
      es, bad := LoadReadsRecords(t[e.id := e.ip], rest);
      RecordsFromFirst(e, es);
      AppliedFromFirst(t, e, es);
      assert data == Record(e) + Records(es) + bad;
      es := [e] + es;
    }
  }

  lemma {:induction false} RecordsFromFirst(e: Entry, es: seq<Entry>)
    ensures Records([e] + es) == Record(e) + Records(es)
    decreases |es|
  {
    hide Record;
    var all := [e] + es;
    if es == [] {
      assert all[..0] == [];
    } else {
      var n := |es| - 1;
      RecordsFromFirst(e, es[..n]);
      assert all[..|es|] == [e] + es[..n];
      assert Records(all) == Record(e) + Records(es[..n]) + Record(es[n]);
    }
  }

  lemma {:induction false} AppliedFromFirst(t: map<u32, Text>, e: Entry, es: seq<Entry>)
    ensures Applied(t, [e] + es) == Applied(t[e.id := e.ip], es)
    decreases |es|
  {
    var all := [e] + es;
    if es == [] {
      assert all[..0] == [];
    } else {
      AppliedFromFirst(t, e, es[..|es| - 1]);
      assert all[..|es|] == [e] + es[..|es| - 1];
    }
  }

  /** The reader accepts exactly the concatenations of valid records. */
  lemma LoadAcceptsIff(t: map<u32, Text>, data: seq<byte>)
    ensures Load(t, data).status.Done? <==> exists es: seq<Entry> :: AllValid(es) && data == Records(es)
  {
    hide Load, Records, Valid, First;
    var es, bad := LoadReadsRecords(t, data);
    if bad == [] { assert data == Records(es); }
    forall fs: seq<Entry> | AllValid(fs) && data == Records(fs) ensures Load(t, data).status.Done? {
      LoadValid(t, fs, []);
      assert Records(fs) + [] == data;
      LoadNothing(Applied(t, fs));
    }
  }

  lemma LoadNothing(t: map<u32, Text>)
    ensures Load(t, []) == Loaded(t, Done)
  {
  }

  /** Applying a table's entries in any order overrides with the table. */
  lemma {:induction false} AppliedInOrder(t: map<u32, Text>, order: seq<u32>, table: map<u32, Text>)
    requires forall k :: k in order ==> k in table
    ensures Applied(t, EntriesOf(order, table)) == t + Restricted(table, order)
    decreases |order|
  {
    hide Restricted;
    if order == [] {
      RestrictedToNone(t, table);
    } else {
      var n := |order| - 1;
      AppliedInOrder(t, order[..n], table);
      assert EntriesOf(order, table)[..n] == EntriesOf(order[..n], table);
      RestrictedOneMore(t, table, order);
    }
  }

  lemma {:induction false} LoadStopsAtInvalid(t: map<u32, Text>, es: seq<Entry>, k: nat, rest: seq<byte>)
    requires k < |es| && AllValid(es[..k]) && !Valid(es[k]) && |es[k].ip| < 0x1_0000_0000
    ensures !Load(t, Records(es) + rest).status.Done?
    decreases |es|
  {
    hide Record, Load, Valid;
    var n := |es| - 1;
    if k == n {
      LoadValid(t, es[..n], Record(es[n]) + rest);
      assert Records(es) + rest == Records(es[..n]) + (Record(es[n]) + rest);
      LoadOne(Applied(t, es[..n]), es[n], rest);
    } else {
      assert es[..n][..k] == es[..k];
      LoadStopsAtInvalid(t, es[..n], k, Record(es[n]) + rest);
      assert Records(es) + rest == Records(es[..n]) + (Record(es[n]) + rest);
    }
  }

  /** A written table is read back, over whatever the reader had before, exactly when every
      address in it has a colon. */
  lemma TableRoundTrip(t: map<u32, Text>, order: seq<u32>, table: map<u32, Text>)
    requires Enumerates(order, table.Keys)
    requires forall k :: k in table ==> |table[k]| < 0x1_0000_0000
    ensures Load(t, Records(EntriesOf(order, table))) == Loaded(t + table, Done)
      <==> forall k :: k in table ==> COLON in table[k]
  {
    hide Load, Record, Records, Applied;
    var es := EntriesOf(order, table);
    assert Records(es) + [] == Records(es);
    if forall k :: k in table ==> COLON in table[k] {
      LoadValid(t, es, []);
      LoadNothing(Applied(t, es));
      AppliedInOrder(t, order, table);
      assert Restricted(table, order) == table;
    } else {
      var k :| k in table && COLON !in table[k];
      var i :| 0 <= i < |order| && order[i] == k;
      assert !Valid(es[i]);
      var n := FirstInvalid(es);
      LoadStopsAtInvalid(t, es, n, []);
    }
  }

  lemma {:induction false} FirstInvalid(es: seq<Entry>) returns (k: nat)
    requires !AllValid(es)
    ensures k < |es| && AllValid(es[..k]) && !Valid(es[k])
    decreases |es|
  {
    hide Valid;
    var n := |es| - 1;
    if AllValid(es[..n]) {
      k := n;
    } else {
      k := FirstInvalid(es[..n]);
      assert es[..n][..k] == es[..k];
    }
  }

  /** A record as it is on the wire. */
  lemma RecordByExample()
    ensures Record(Entry(0x0403_0201, [65, 58])) == [1, 2, 3, 4, 2, 0, 0, 0, 65, 58]
  {
    hide Le;
    ByteOrders();
    SmallLength();
  }

  lemma SmallLength()
    ensures Le(2, 4) == [2, 0, 0, 0]
  {
    assert Le(0, 1) == [0] && Le(0, 2) == [0, 0] && Le(0, 3) == [0, 0, 0];
  }
}
