/**
 MSDP values: the printer, whose map iteration order is arbitrary, and the recursive parser. What is
 proved of them is in modules MsdpScan and MsdpText.
 */
module Msdp {
  import opened Telnet

  const VAR: byte := 1
  const VAL: byte := 2
  const TABLE_OPEN: byte := 3
  const TABLE_CLOSE: byte := 4
  const ARRAY_OPEN: byte := 5
  const ARRAY_CLOSE: byte := 6

  type bytes = seq<byte>

  datatype Value =
    | Text(text: bytes)
    | Table(entries: map<bytes, Value>)
    | Array(items: seq<Value>)

  // ---------------------------------------------------------------------------------------------
  // Printing
  // ---------------------------------------------------------------------------------------------

  /** A value together with the order in which each of its tables is enumerated. */
  datatype Ordered =
    | OText(text: bytes)
    | OTable(pairs: seq<Entry>)
    | OArray(elems: seq<Ordered>)

  datatype Entry = Entry(key: bytes, value: Ordered)

  /** No key is enumerated twice, in any table. */
  predicate Distinct(o: Ordered) {
    match o
    case OText(_) => true
    case OTable(pairs) => AllDistinct(pairs)
    case OArray(elems) => forall i :: 0 <= i < |elems| ==> Distinct(elems[i])
  }

  predicate AllDistinct(pairs: seq<Entry>) {
    && (forall i, j :: 0 <= i < j < |pairs| ==> pairs[i].key != pairs[j].key)
    && forall i :: 0 <= i < |pairs| ==> Distinct(pairs[i].value)
  }

  /** The value, with the orders forgotten. */
  function Forget(o: Ordered): Value {
    match o
    case OText(s) => Text(s)
    case OTable(pairs) => Table(Collect(AddPairs([], pairs)))
    case OArray(elems) => Array(AddElems([], elems))
  }

  /** The map filled by storing the entries one after the other. */
  function Collect(entries: seq<(bytes, Value)>): map<bytes, Value> {
    if entries == [] then map[]
    else Collect(entries[..|entries| - 1])[entries[|entries| - 1].0 := entries[|entries| - 1].1]
  }

  /** `entries` with those of `pairs` appended one after the other. */
  function AddPairs(entries: seq<(bytes, Value)>, pairs: seq<Entry>): seq<(bytes, Value)>
    decreases pairs
  {
    if pairs == [] then entries
    else AddPairs(entries + [(pairs[0].key, Forget(pairs[0].value))], pairs[1..])
  }

  /** `items` with the elements appended one after the other. */
  function AddElems(items: seq<Value>, elems: seq<Ordered>): seq<Value>
    decreases elems
  {
    if elems == [] then items else AddElems(items + [Forget(elems[0])], elems[1..])
  }

  lemma {:induction false} AddPairsAre(entries: seq<(bytes, Value)>, pairs: seq<Entry>)
    ensures var r := AddPairs(entries, pairs);
            && |r| == |entries| + |pairs| && entries <= r
            && forall k :: |entries| <= k < |r| ==>
                 r[k] == (pairs[k - |entries|].key, Forget(pairs[k - |entries|].value))
    decreases pairs
  {
    if pairs != [] {
      var first := (pairs[0].key, Forget(pairs[0].value));
      AddPairsAre(entries + [first], pairs[1..]);
      var r := AddPairs(entries + [first], pairs[1..]);
      assert r[|entries|] == (entries + [first])[|entries|];
      assert entries == (entries + [first])[..|entries|];
    }
  }

  lemma {:induction false} AddElemsAre(items: seq<Value>, elems: seq<Ordered>)
    ensures var r := AddElems(items, elems);
            && |r| == |items| + |elems| && items <= r
            && forall k :: |items| <= k < |r| ==> r[k] == Forget(elems[k - |items|])
    decreases elems
  {
    if elems != [] {
      var first := Forget(elems[0]);
      AddElemsAre(items + [first], elems[1..]);
      var r := AddElems(items + [first], elems[1..]);
      assert r[|items|] == (items + [first])[|items|];
      assert items == (items + [first])[..|items|];
    }
  }

  function Print(o: Ordered): bytes {
    match o
    case OText(s) => [VAL] + s
    case OTable(pairs) => [TABLE_OPEN] + (PrintPairs(pairs) + [TABLE_CLOSE])
    case OArray(elems) => [ARRAY_OPEN] + (PrintElems(elems) + [ARRAY_CLOSE])
  }

  function PrintPairs(pairs: seq<Entry>): bytes {
    if pairs == [] then []
    else [VAR] + (pairs[0].key + (Print(pairs[0].value) + PrintPairs(pairs[1..])))
  }

  function PrintElems(elems: seq<Ordered>): bytes {
    if elems == [] then [] else Print(elems[0]) + PrintElems(elems[1..])
  }

  /** `pairs` is one of the ways of enumerating `m` and the tables inside it. */
  predicate Enumerates(pairs: seq<Entry>, m: map<bytes, Value>) {
    AllDistinct(pairs) && Collect(AddPairs([], pairs)) == m
  }

  // ---------------------------------------------------------------------------------------------
  // Parsing
  // ---------------------------------------------------------------------------------------------

  /**
   What parsing a value does: succeed having consumed the bytes up to `end`, report an error, or never
   return (the array loop makes no progress on an element that consumes nothing).
   */
  datatype Outcome = Parsed(value: Value, end: nat) | Malformed | Diverges

  predicate EndsText(b: byte) {
    b == VAR || b == VAL || b == TABLE_CLOSE || b == ARRAY_CLOSE
  }

  predicate EndsKey(b: byte) {
    b == VAL || b == TABLE_OPEN || b == ARRAY_OPEN
  }

  /** The first position from `i` on that ends a string (or the end of the data). */
  function TextEnd(d: bytes, i: nat): (j: nat)
    requires i <= |d|
    ensures i <= j <= |d| && (j < |d| ==> EndsText(d[j]))
    decreases |d| - i
  {
    if i < |d| && !EndsText(d[i]) then TextEnd(d, i + 1) else i
  }

  /** The first position from `i` on that ends a key (or the end of the data). */
  function KeyEnd(d: bytes, i: nat): (j: nat)
    requires i <= |d|
    ensures i <= j <= |d| && (j < |d| ==> EndsKey(d[j]))
    decreases |d| - i
  {
    if i < |d| && !EndsKey(d[i]) then KeyEnd(d, i + 1) else i
  }

  /** Parsing a value in the data from position `i` on; the code's count is `end - i`. */
  function Parse(d: bytes, i: nat): (r: Outcome)
    requires i <= |d|
    ensures r.Parsed? ==> i <= r.end <= |d|
    ensures r.Parsed? ==> (r.end == i <==> i == |d| || d[i] == VAR || d[i] == TABLE_CLOSE || d[i] == ARRAY_CLOSE)
    decreases |d| - i, 0
  {
    if i == |d| then Parsed(Text([]), i)
    else if d[i] == VAL then Parsed(Text(d[i + 1..TextEnd(d, i + 1)]), TextEnd(d, i + 1))
    else if d[i] == TABLE_OPEN then ParsePairs(d, i + 1, [])
    else if d[i] == ARRAY_OPEN then ParseElems(d, i + 1, [])
    else Parsed(Text(d[i..TextEnd(d, i)]), TextEnd(d, i))
  }

  /** The table loop at position `i`, with `entries` stored so far. */
  function ParsePairs(d: bytes, i: nat, entries: seq<(bytes, Value)>): (r: Outcome)
    requires i <= |d|
    ensures r.Parsed? ==> i < r.end <= |d|
    decreases |d| - i, 1
  {
    if i == |d| then Malformed
    else if d[i] == TABLE_CLOSE then Parsed(Table(Collect(entries)), i + 1)
    else if d[i] != VAR then Malformed
    else
      var j := KeyEnd(d, i + 1);
      var r := Parse(d, j);
      if r.Parsed? then ParsePairs(d, r.end, entries + [(d[i + 1..j], r.value)]) else r
  }

  /** The array loop at position `i`, with `items` collected so far. */
  function ParseElems(d: bytes, i: nat, items: seq<Value>): (r: Outcome)
    requires i <= |d|
    ensures r.Parsed? ==> i < r.end <= |d|
    decreases |d| - i, 1
  {
    if i == |d| then Malformed
    else if d[i] == ARRAY_CLOSE then Parsed(Array(items), i + 1)
    else
      var r := Parse(d, i);
      if r.Parsed? then
        if r.end == i then Diverges else ParseElems(d, r.end, items + [r.value])
      else r
  }

  /** A result, an error, or no return. */
  datatype Result<T> = Success(value: T) | Failure | NoReturn

  /** The top-level loop at position `i`, with `entries` stored so far. */
  function UnmarshalFrom(d: bytes, i: nat, entries: seq<(bytes, Value)>): Result<seq<(bytes, Value)>>
    requires i <= |d|
    decreases |d| - i
  {
    if i == |d| then Success(entries)
    else if d[i] != VAR then Failure
    else
      var j := KeyEnd(d, i + 1);
      match Parse(d, j)
      case Parsed(v, end) => UnmarshalFrom(d, end, entries + [(d[i + 1..j], v)])
      case Malformed => Failure
      case Diverges => NoReturn
  }

  function Unmarshal(d: bytes): Result<map<bytes, Value>> {
    match UnmarshalFrom(d, 0, [])
    case Success(entries) => Success(Collect(entries))
    case Failure => Failure
    case NoReturn => NoReturn
  }

  // ---------------------------------------------------------------------------------------------
  // Which values are representable
  // ---------------------------------------------------------------------------------------------

  predicate TextOk(s: bytes) {
    forall b :: b in s ==> !EndsText(b)
  }

  predicate KeyOk(k: bytes) {
    forall b :: b in k ==> !EndsKey(b)
  }

  /** In an array, a string is not directly followed by a table or an array. */
  predicate NoOpenAfterText(items: seq<Value>) {
    forall i :: 0 <= i < |items| - 1 && items[i].Text? ==> items[i + 1].Text?
  }

  predicate Representable(v: Value) {
    match v
    case Text(s) => TextOk(s)
    case Table(t) => forall k :: k in t ==> KeyOk(k) && Representable(t[k])
    case Array(items) => NoOpenAfterText(items) && forall k :: 0 <= k < |items| ==> Representable(items[k])
  }

  predicate TableRepresentable(t: map<bytes, Value>) {
    forall k :: k in t ==> KeyOk(k) && Representable(t[k])
  }

  // ---------------------------------------------------------------------------------------------
  // Positions in the data, and turns of the loops
  // ---------------------------------------------------------------------------------------------

  /** When no key occurs twice, the map holds every entry. */
  lemma {:induction false} CollectAt(entries: seq<(bytes, Value)>, i: nat)
    requires forall j, k :: 0 <= j < k < |entries| ==> entries[j].0 != entries[k].0
    requires i < |entries|
    ensures entries[i].0 in Collect(entries) && Collect(entries)[entries[i].0] == entries[i].1
  {
    if i < |entries| - 1 {
      CollectAt(entries[..|entries| - 1], i);
    }
  }

  /** A key of the map is the key of some entry. */
  lemma {:induction false} KeyHasEntry(entries: seq<(bytes, Value)>, k: bytes) returns (i: nat)
    requires k in Collect(entries)
    ensures i < |entries| && entries[i].0 == k
  {
    var n := |entries| - 1;
    if entries[n].0 == k {
      i := n;
    } else {
      i := KeyHasEntry(entries[..n], k);
    }
  }

  /** The entries of a table are the entries printed. */
  lemma EntriesOfMap(pairs: seq<Entry>)
    requires AllDistinct(pairs)
    ensures var m := Collect(AddPairs([], pairs));
            && (forall i :: 0 <= i < |pairs| ==> pairs[i].key in m && m[pairs[i].key] == Forget(pairs[i].value))
            && (forall k :: k in m ==> exists i :: 0 <= i < |pairs| && pairs[i].key == k)
  {
    var entries := AddPairs([], pairs);
    var m := Collect(entries);
    AddPairsAre([], pairs);
    forall i | 0 <= i < |pairs|
      ensures pairs[i].key in m && m[pairs[i].key] == Forget(pairs[i].value)
    {
      assert entries[i] == (pairs[i].key, Forget(pairs[i].value));
      CollectAt(entries, i);
    }
    forall k | k in m
      ensures exists i :: 0 <= i < |pairs| && pairs[i].key == k
    {
      var i := KeyHasEntry(entries, k);
      assert entries[i] == (pairs[i].key, Forget(pairs[i].value));
    }
  }

  /** The end of a string is the first byte that ends one. */
  lemma {:induction false} TextEndIs(d: bytes, i: nat, j: nat)
    requires i <= j <= |d| && TextOk(d[i..j]) && (j < |d| ==> EndsText(d[j]))
    ensures TextEnd(d, i) == j
    decreases j - i
  {
    if i < j {
      assert d[i] == d[i..j][0] && d[i + 1..j] == d[i..j][1..];
      TextEndIs(d, i + 1, j);
    }
  }

  lemma {:induction false} KeyEndIs(d: bytes, i: nat, j: nat)
    requires i <= j <= |d| && KeyOk(d[i..j]) && (j < |d| ==> EndsKey(d[j]))
    ensures KeyEnd(d, i) == j
    decreases j - i
  {
    if i < j {
      assert d[i] == d[i..j][0] && d[i + 1..j] == d[i..j][1..];
      KeyEndIs(d, i + 1, j);
    }
  }

  lemma {:induction false} TextEndOk(d: bytes, i: nat)
    requires i <= |d|
    ensures TextOk(d[i..TextEnd(d, i)])
    decreases |d| - i
  {
    if i < |d| && !EndsText(d[i]) {
      TextEndOk(d, i + 1);
      assert d[i..TextEnd(d, i)] == [d[i]] + d[i + 1..TextEnd(d, i)];
    }
  }

  lemma {:induction false} KeyEndOk(d: bytes, i: nat)
    requires i <= |d|
    ensures KeyOk(d[i..KeyEnd(d, i)])
    decreases |d| - i
  {
    if i < |d| && !EndsKey(d[i]) {
      KeyEndOk(d, i + 1);
      assert d[i..KeyEnd(d, i)] == [d[i]] + d[i + 1..KeyEnd(d, i)];
    }
  }

  /** The bytes of `s` stand at position `i`. */
  predicate At(d: bytes, i: nat, s: bytes) {
    i + |s| <= |d| && d[i..i + |s|] == s
  }

  lemma AtConcat(d: bytes, i: nat, s: bytes, t: bytes)
    ensures At(d, i, s + t) <==> At(d, i, s) && At(d, i + |s|, t)
  {
    if i + |s| + |t| <= |d| {
      assert d[i..i + |s| + |t|] == d[i..i + |s|] + d[i + |s|..i + |s| + |t|];
      if At(d, i, s + t) {
        assert d[i..i + |s|] == (s + t)[..|s|] && d[i + |s|..i + |s| + |t|] == (s + t)[|s|..];
      }
    }
  }

  lemma AtByte(d: bytes, i: nat, b: byte)
    ensures At(d, i, [b]) <==> i < |d| && d[i] == b
  {
    if i < |d| {
      assert d[i..i + 1] == [d[i]];
    }
  }

  lemma AtFirst(d: bytes, i: nat, s: bytes)
    requires At(d, i, s) && s != []
    ensures i < |d| && d[i] == s[0]
  {
    assert d[i] == d[i..i + |s|][0];
  }

  lemma AtBrackets(d: bytes, i: nat, open: byte, s: bytes, close: byte)
    requires At(d, i, [open] + (s + [close]))
    ensures i < |d| && d[i] == open && At(d, i + 1, s)
    ensures i + 1 + |s| < |d| && d[i + 1 + |s|] == close
  {
    AtConcat(d, i, [open], s + [close]);
    AtByte(d, i, open);
    AtConcat(d, i + 1, s, [close]);
    AtByte(d, i + 1 + |s|, close);
  }

  /** Where a key stands and ends, and what stands behind it. */
  lemma KeyParts(d: bytes, i: nat, key: bytes, w: bytes)
    requires At(d, i, [VAR] + (key + w)) && KeyOk(key) && w != [] && EndsKey(w[0])
    ensures var j := i + 1 + |key|;
            i < |d| && d[i] == VAR && j <= |d| && d[i + 1..j] == key && KeyEnd(d, i + 1) == j && At(d, j, w)
  {
    AtConcat(d, i, [VAR], key + w);
    AtByte(d, i, VAR);
    AtConcat(d, i + 1, key, w);
    AtFirst(d, i + 1 + |key|, w);
    KeyEndIs(d, i + 1, i + 1 + |key|);
  }

  /** Where the parts of an entry stand, and where its key ends. */
  lemma EntryParts(d: bytes, i: nat, key: bytes, v: bytes, rest: bytes)
    requires At(d, i, [VAR] + (key + (v + rest))) && KeyOk(key) && v != [] && EndsKey(v[0])
    ensures var j := i + 1 + |key|;
            && i < |d| && d[i] == VAR && j <= |d| && d[i + 1..j] == key && KeyEnd(d, i + 1) == j
            && At(d, j, v) && At(d, j + |v|, rest)
  {
    KeyParts(d, i, key, v + rest);
    AtConcat(d, i + 1 + |key|, v, rest);
  }

  /** Both loops, at `i` with `entries`, do what they do at `next` with `entries'`. */
  ghost predicate Leads(d: bytes, i: nat, entries: seq<(bytes, Value)>, next: nat, entries': seq<(bytes, Value)>) {
    && i <= |d| && next <= |d|
    && ParsePairs(d, i, entries) == ParsePairs(d, next, entries')
    && UnmarshalFrom(d, i, entries) == UnmarshalFrom(d, next, entries')
  }

  /** One turn of the table loop and of the top-level loop. */
  lemma PairTurn(d: bytes, i: nat, j: nat, end: nat, key: bytes, v: Value, entries: seq<(bytes, Value)>)
    requires i < j <= |d| && d[i] == VAR && KeyEnd(d, i + 1) == j && d[i + 1..j] == key
    requires Parse(d, j) == Parsed(v, end)
    ensures Leads(d, i, entries, end, entries + [(key, v)])
  {
  }

  /** One turn of the array loop. */
  lemma ElemTurn(d: bytes, i: nat, next: nat, v: Value, items: seq<Value>)
    requires i < next && i < |d| && d[i] != ARRAY_CLOSE && Parse(d, i) == Parsed(v, next)
    ensures next <= |d| && ParseElems(d, i, items) == ParseElems(d, next, items + [v])
  {
  }

  /** An element that starts with VAR or TABLE_CLOSE keeps the array loop where it is. */
  lemma ElemWithoutProgress(d: bytes, i: nat, items: seq<Value>)
    requires i < |d| && (d[i] == VAR || d[i] == TABLE_CLOSE)
    ensures ParseElems(d, i, items) == Diverges
  {
    TextEndIs(d, i, i);
    assert Parse(d, i) == Parsed(Text(d[i..i]), i);
  }

  /** So unmarshalling such an array never returns. */
  lemma ArrayWithoutProgress(rest: bytes)
    ensures Unmarshal([VAR, ARRAY_OPEN, VAR] + rest) == NoReturn
    ensures Unmarshal([VAR, ARRAY_OPEN, TABLE_CLOSE] + rest) == NoReturn
  {
    forall b | b == VAR || b == TABLE_CLOSE
      ensures Unmarshal([VAR, ARRAY_OPEN, b] + rest) == NoReturn
    {
      var d := [VAR, ARRAY_OPEN, b] + rest;
      ElemWithoutProgress(d, 2, []);
      assert Parse(d, 1) == Diverges;
      KeyEndIs(d, 1, 1);
    }
  }
}
