/** The MSDP code itself: appending to a buffer, and index loops over the data. */
module MsdpCode {
  import opened Telnet
  import opened Msdp
  import opened MsdpScan
  import opened MsdpText

  class Buffer {
    var data: bytes

    constructor ()
      ensures data == []
    {
      data := [];
    }

    method Write(s: bytes)
      modifies this
      ensures data == old(data) + s
    {
      data := data + s;
    }
  }

  // ---------------------------------------------------------------------------------------------
  // Marshalling
  // ---------------------------------------------------------------------------------------------

  lemma {:induction false} PrintPairsSnoc(pairs: seq<Entry>, e: Entry)
    ensures PrintPairs(pairs + [e]) == PrintPairs(pairs) + ([VAR] + (e.key + Print(e.value)))
    decreases pairs
  {
    if pairs == [] {
      assert [e][1..] == [] && pairs + [e] == [e];
      assert e.key + (Print(e.value) + []) == e.key + Print(e.value);
    } else {
      PrintPairsSnoc(pairs[1..], e);
      assert (pairs + [e])[1..] == pairs[1..] + [e];
      var p, more := pairs[0], [VAR] + (e.key + Print(e.value));
      assert [VAR] + (p.key + (Print(p.value) + (PrintPairs(pairs[1..]) + more)))
             == [VAR] + (p.key + (Print(p.value) + PrintPairs(pairs[1..]))) + more;
    }
  }

  lemma {:induction false} PrintElemsSnoc(elems: seq<Ordered>, e: Ordered)
    ensures PrintElems(elems + [e]) == PrintElems(elems) + Print(e)
    decreases elems
  {
    if elems == [] {
      assert [e][1..] == [] && elems + [e] == [e];
    } else {
      PrintElemsSnoc(elems[1..], e);
      assert (elems + [e])[1..] == elems[1..] + [e];
      ConcatAssociative(Print(elems[0]), PrintElems(elems[1..]), Print(e));
    }
  }

  lemma AddPairsSnoc(pairs: seq<Entry>, e: Entry)
    ensures Collect(AddPairs([], pairs + [e])) == Collect(AddPairs([], pairs))[e.key := Forget(e.value)]
  {
    var r, s := AddPairs([], pairs + [e]), AddPairs([], pairs);
    AddPairsAre([], pairs + [e]);
    AddPairsAre([], pairs);
    assert r[..|r| - 1] == s;
    assert r[|r| - 1] == (e.key, Forget(e.value));
  }

  /** Storing one more key's entry. */
  lemma EntryStored(t: map<bytes, Value>, todo: set<bytes>, k: bytes, pairs: seq<Entry>, o: Ordered)
    requires k in todo && todo <= t.Keys && Forget(o) == t[k]
    requires Collect(AddPairs([], pairs)) == map q | q in t && q !in todo :: t[q]
    ensures Collect(AddPairs([], pairs + [Entry(k, o)])) == map q | q in t && q !in todo - {k} :: t[q]
  {
    AddPairsSnoc(pairs, Entry(k, o));
  }

  /** Writes a value; `o` is the order in which its tables happened to be enumerated. */
  method WriteValue(buf: Buffer, v: Value) returns (ghost o: Ordered)
    modifies buf
    ensures Distinct(o) && Forget(o) == v
    ensures buf.data == old(buf.data) + Print(o)
    decreases v, 1
  {
    match v
    case Text(s) =>
      buf.Write([VAL]);
      buf.Write(s);
      o := OText(s);
      ConcatAssociative(old(buf.data), [VAL], s);
    case Table(t) =>
      buf.Write([TABLE_OPEN]);
      ghost var pairs := WriteEntries(buf, t, v);
      buf.Write([TABLE_CLOSE]);
      o := OTable(pairs);
      assert old(buf.data) + [TABLE_OPEN] + PrintPairs(pairs) + [TABLE_CLOSE]
             == old(buf.data) + ([TABLE_OPEN] + (PrintPairs(pairs) + [TABLE_CLOSE]));
    case Array(items) =>
      buf.Write([ARRAY_OPEN]);
      ghost var elems := WriteItems(buf, items, v);
      buf.Write([ARRAY_CLOSE]);
      o := OArray(elems);
      assert old(buf.data) + [ARRAY_OPEN] + PrintElems(elems) + [ARRAY_CLOSE]
             == old(buf.data) + ([ARRAY_OPEN] + (PrintElems(elems) + [ARRAY_CLOSE]));
  }

  /** The loop over a map, in whatever order its keys come. */
  method WriteEntries(buf: Buffer, t: map<bytes, Value>, ghost v: Value) returns (ghost pairs: seq<Entry>)
    requires v == Table(t)
    modifies buf
    ensures Enumerates(pairs, t)
    ensures buf.data == old(buf.data) + PrintPairs(pairs)
    decreases v, 0
  {
    pairs := [];
    var todo := t.Keys;
    while todo != {}
      invariant todo <= t.Keys && AllDistinct(pairs)
      invariant forall i :: 0 <= i < |pairs| ==> pairs[i].key !in todo
      invariant Collect(AddPairs([], pairs)) == map k | k in t && k !in todo :: t[k]
      invariant buf.data == old(buf.data) + PrintPairs(pairs)
      decreases |todo|
    {
      var k :| k in todo;
      assert v.entries[k] == t[k];
      ghost var o := WriteEntry(buf, k, t[k]);
      EntryStored(t, todo, k, pairs, o);
      todo := todo - {k};
      assert buf.data == old(buf.data) + PrintPairs(pairs + [Entry(k, o)]) by {
        PrintPairsSnoc(pairs, Entry(k, o));
        ConcatAssociative(old(buf.data), PrintPairs(pairs), [VAR] + (k + Print(o)));
      }
      pairs := pairs + [Entry(k, o)];
    }
  }

  method WriteEntry(buf: Buffer, key: bytes, v: Value) returns (ghost o: Ordered)
    modifies buf
    ensures Distinct(o) && Forget(o) == v
    ensures buf.data == old(buf.data) + ([VAR] + (key + Print(o)))
    decreases v, 2
  {
    buf.Write([VAR]);
    buf.Write(key);
    o := WriteValue(buf, v);
    assert old(buf.data) + [VAR] + key + Print(o) == old(buf.data) + ([VAR] + (key + Print(o)));
  }

  method WriteItems(buf: Buffer, items: seq<Value>, ghost v: Value) returns (ghost elems: seq<Ordered>)
    requires v == Array(items)
    modifies buf
    ensures Distinct(OArray(elems)) && AddElems([], elems) == items
    ensures buf.data == old(buf.data) + PrintElems(elems)
    decreases v, 0
  {
    elems := [];
    for i := 0 to |items|
      invariant |elems| == i && forall k :: 0 <= k < i ==> Distinct(elems[k]) && Forget(elems[k]) == items[k]
      invariant buf.data == old(buf.data) + PrintElems(elems)
    {
      assert v.items[i] == items[i];
      ghost var o := WriteValue(buf, items[i]);
      PrintElemsSnoc(elems, o);
      ConcatAssociative(old(buf.data), PrintElems(elems), Print(o));
      elems := elems + [o];
    }
    AddElemsAre([], elems);
  }

  /** The wire form of `m`, for some enumeration of it and of the tables inside it. */
  method MarshalMSDP(m: map<bytes, Value>) returns (d: bytes, ghost pairs: seq<Entry>)
    ensures Enumerates(pairs, m) && d == PrintPairs(pairs)
    ensures Unmarshal(d) == Success(m) <==> TableRepresentable(m)
    ensures RegularMap(m) ==> (Unmarshal(d) == NoReturn <==> MapTraps(m))
  {
    var buf := new Buffer();
    pairs := WriteEntries(buf, m, Table(m));
    d := buf.data;
    assert [] + PrintPairs(pairs) == PrintPairs(pairs);
    RoundTrip(m, pairs);
    if RegularMap(m) {
      MarshalledHangsExactly(m, pairs);
    }
  }

  // ---------------------------------------------------------------------------------------------
  // Unmarshalling
  // ---------------------------------------------------------------------------------------------

  method ScanText(d: bytes, start: nat) returns (i: nat)
    requires start <= |d|
    ensures i == TextEnd(d, start)
  {
    i := start;
    while i < |d| && !EndsText(d[i])
      invariant i <= |d| && TextEnd(d, start) == TextEnd(d, i)
    {
      i := i + 1;
    }
  }

  method ScanKey(d: bytes, start: nat) returns (i: nat)
    requires start <= |d|
    ensures i == KeyEnd(d, start)
  {
    i := start;
    while i < |d| && !EndsKey(d[i])
      invariant i <= |d| && KeyEnd(d, start) == KeyEnd(d, i)
    {
      i := i + 1;
    }
  }

  method ParseValue(d: bytes, i: nat) returns (r: Outcome)
    requires i <= |d|
    ensures r == Parse(d, i)
    decreases |d| - i, 0
  {
    if i == |d| {
      return Parsed(Text([]), i);
    } else if d[i] == VAL {
      var end := ScanText(d, i + 1);
      return Parsed(Text(d[i + 1..end]), end);
    } else if d[i] == TABLE_OPEN {
      r := ParseTable(d, i + 1);
    } else if d[i] == ARRAY_OPEN {
      r := ParseArray(d, i + 1);
    } else {
      var end := ScanText(d, i);
      return Parsed(Text(d[i..end]), end);
    }
  }

  method ParseTable(d: bytes, start: nat) returns (r: Outcome)
    requires start <= |d|
    ensures r == ParsePairs(d, start, [])
    decreases |d| - start, 1
  {
    var i := start;
    var table: map<bytes, Value> := map[];
    ghost var entries: seq<(bytes, Value)> := [];
    while i < |d| && d[i] != TABLE_CLOSE
      invariant start <= i <= |d| && table == Collect(entries)
      invariant ParsePairs(d, start, []) == ParsePairs(d, i, entries)
      decreases |d| - i
    {
      if d[i] != VAR {
        return Malformed;
      }
      var j := ScanKey(d, i + 1);
      r := ParseValue(d, j);
      if !r.Parsed? {
        return;
      }
      table := table[d[i + 1..j] := r.value];
      CollectSnoc(entries, d[i + 1..j], r.value);
      entries := entries + [(d[i + 1..j], r.value)];
      i := r.end;
    }
    if i >= |d| {
      return Malformed;
    }
    return Parsed(Table(table), i + 1);
  }

  lemma CollectSnoc(entries: seq<(bytes, Value)>, key: bytes, v: Value)
    ensures Collect(entries + [(key, v)]) == Collect(entries)[key := v]
  {
    assert (entries + [(key, v)])[..|entries|] == entries;
  }

  method ParseArray(d: bytes, start: nat) returns (r: Outcome)
    requires start <= |d|
    ensures r == ParseElems(d, start, [])
    decreases |d| - start, 1
  {
    var i := start;
    var items: seq<Value> := [];
    while i < |d| && d[i] != ARRAY_CLOSE
      invariant start <= i <= |d|
      invariant ParseElems(d, start, []) == ParseElems(d, i, items)
      decreases |d| - i
    {
      r := ParseValue(d, i);
      if !r.Parsed? {
        return;
      }
      if r.end == i {
        return Diverges;  // the code would go round this loop for ever, appending empty strings
      }
      items := items + [r.value];
      i := r.end;
    }
    if i >= |d| {
      return Malformed;
    }
    return Parsed(Array(items), i + 1);
  }

  method UnmarshalMSDP(d: bytes) returns (r: Result<map<bytes, Value>>)
    ensures r == Unmarshal(d)
    ensures r == NoReturn <==> Hangs(d)
    ensures r == Failure <==> IsMalformed(d)
  {
    ReturnsExactly(d);
    var i := 0;
    var result: map<bytes, Value> := map[];
    ghost var entries: seq<(bytes, Value)> := [];
    while i < |d|
      invariant 0 <= i <= |d| && result == Collect(entries)
      invariant UnmarshalFrom(d, 0, []) == UnmarshalFrom(d, i, entries)
      decreases |d| - i
    {
      if d[i] != VAR {
        return Failure;
      }
      var j := ScanKey(d, i + 1);
      var v := ParseValue(d, j);
      match v
      case Malformed => return Failure;
      case Diverges => return NoReturn;
      case Parsed(value, end) =>
        result := result[d[i + 1..j] := value];
        CollectSnoc(entries, d[i + 1..j], value);
        entries := entries + [(d[i + 1..j], value)];
        i := end;
    }
    return Success(result);
  }
}
