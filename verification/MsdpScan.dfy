/**
 When unmarshalling returns. A flat scan of the data, byte by byte with a stack of open brackets,
 decides it: unmarshalling never returns if and only if the scan gets stuck.
 */
module MsdpScan {
  import opened Telnet
  import opened Msdp

  datatype Bracket = InTable | InArray

  /** Between values, in a key, or in a string. */
  datatype Mode = Between | InKey | InText

  /** Scanning within `open` brackets, innermost last; stuck; or past an error. */
  datatype Scan = Going(mode: Mode, open: seq<Bracket>) | Stuck | Broken

  const START: Scan := Going(Between, [])

  /** The byte with which a value begins. */
  function OpenValue(b: byte, open: seq<Bracket>): Scan {
    if b == TABLE_OPEN then Going(Between, open + [InTable])
    else if b == ARRAY_OPEN then Going(Between, open + [InArray])
    else Going(InText, open)
  }

  function Next(c: Scan, b: byte): Scan {
    if !c.Going? then c
    else if c.mode == InKey then if EndsKey(b) then OpenValue(b, c.open) else c
    else if c.mode == InText && !EndsText(b) then c
    else if c.open == [] then if b == VAR then Going(InKey, []) else Broken
    else
      var outer := c.open[..|c.open| - 1];
      match c.open[|c.open| - 1]
      case InTable =>
        if b == TABLE_CLOSE then Going(Between, outer)
        else if b == VAR then Going(InKey, c.open)
        else Broken
      case InArray =>
        if b == ARRAY_CLOSE then Going(Between, outer)
        else if b == VAR || b == TABLE_CLOSE then Stuck
        else OpenValue(b, c.open)
  }

  function Scanned(c: Scan, s: bytes): Scan
    decreases s
  {
    if s == [] then c else Scanned(Next(c, s[0]), s[1..])
  }

  /** What the end of a scan means: the data is accepted, rejected, or never done with. */
  datatype Verdict = Accepted | Rejected | Endless

  function Judge(c: Scan): Verdict {
    match c
    case Stuck => Endless
    case Broken => Rejected
    case Going(_, open) => if open == [] then Accepted else Rejected
  }

  /** VAR or TABLE_CLOSE is met where an array expects an element, before anything malformed. */
  predicate Hangs(d: bytes) {
    Judge(Scanned(START, d)) == Endless
  }

  /** Something malformed is met before that, or a bracket is still open at the end. */
  predicate IsMalformed(d: bytes) {
    Judge(Scanned(START, d)) == Rejected
  }

  // ---------------------------------------------------------------------------------------------
  // The scan against the parser
  // ---------------------------------------------------------------------------------------------

  /** How the scan ends from position `i` on. */
  function Ends(d: bytes, i: nat, c: Scan): Verdict
    requires i <= |d|
  {
    Judge(Scanned(c, d[i..]))
  }

  lemma EndsNext(d: bytes, i: nat, c: Scan)
    requires i < |d|
    ensures Ends(d, i, c) == Ends(d, i + 1, Next(c, d[i]))
  {
    assert d[i..][1..] == d[i + 1..];
  }

  lemma {:induction false} EndsStay(d: bytes, i: nat, c: Scan)
    requires i <= |d| && (!c.Going? || i == |d|)
    ensures Ends(d, i, c) == Judge(c)
    decreases |d| - i
  {
    if i < |d| {
      EndsNext(d, i, c);
      EndsStay(d, i + 1, c);
    }
  }

  /** How the scan ends from the start of a value at `j` on. */
  function ValueEnds(d: bytes, j: nat, open: seq<Bracket>): Verdict
    requires j <= |d|
  {
    if j < |d| then Ends(d, j + 1, OpenValue(d[j], open)) else Judge(Going(Between, open))
  }

  lemma {:induction false} KeySkips(d: bytes, i: nat, open: seq<Bracket>)
    requires i <= |d|
    ensures Ends(d, i, Going(InKey, open)) == ValueEnds(d, KeyEnd(d, i), open)
    decreases |d| - i
  {
    if i < |d| {
      EndsNext(d, i, Going(InKey, open));
      if !EndsKey(d[i]) {
        KeySkips(d, i + 1, open);
      }
    }
  }

  lemma {:induction false} TextSkips(d: bytes, i: nat, open: seq<Bracket>)
    requires i <= |d|
    ensures Ends(d, i, Going(InText, open)) == Ends(d, TextEnd(d, i), Going(Between, open))
    decreases |d| - i
  {
    if i < |d| {
      EndsNext(d, i, Going(InText, open));
      if EndsText(d[i]) {
        EndsNext(d, i, Going(Between, open));
      } else {
        TextSkips(d, i + 1, open);
      }
    }
  }

  /** What a parser's outcome says of the scan: where it goes on, or how it ends. */
  predicate Agrees(r: Outcome, v: Verdict, d: bytes, open: seq<Bracket>)
    requires r.Parsed? ==> r.end <= |d|
  {
    match r
    case Parsed(_, end) => v == Ends(d, end, Going(Between, open))
    case Malformed => v == Rejected
    case Diverges => v == Endless
  }

  lemma {:induction false} ValueAgrees(d: bytes, j: nat, open: seq<Bracket>)
    requires j <= |d|
    requires j < |d| ==> d[j] != VAR && d[j] != TABLE_CLOSE && d[j] != ARRAY_CLOSE
    ensures Agrees(Parse(d, j), ValueEnds(d, j, open), d, open)
    decreases |d| - j, 0
  {
    if j == |d| {
      EndsStay(d, j, Going(Between, open));
    } else if d[j] == TABLE_OPEN {
      PairsAgree(d, j + 1, [], open);
    } else if d[j] == ARRAY_OPEN {
      ElemsAgree(d, j + 1, [], open);
    } else {
      TextSkips(d, j + 1, open);
    }
  }

  lemma {:induction false} PairsAgree(d: bytes, i: nat, entries: seq<(bytes, Value)>, open: seq<Bracket>)
    requires i <= |d|
    ensures Agrees(ParsePairs(d, i, entries), Ends(d, i, Going(Between, open + [InTable])), d, open)
    decreases |d| - i, 1
  {
    var c := Going(Between, open + [InTable]);
    if i == |d| {
      EndsStay(d, i, c);
    } else {
      EndsNext(d, i, c);
      assert c.open[..|c.open| - 1] == open;
      if d[i] == VAR {
        var j := KeyEnd(d, i + 1);
        KeySkips(d, i + 1, c.open);
        ValueAgrees(d, j, c.open);
        var r := Parse(d, j);
        if r.Parsed? {
          PairsAgree(d, r.end, entries + [(d[i + 1..j], r.value)], open);
        }
      } else if d[i] != TABLE_CLOSE {
        EndsStay(d, i + 1, Broken);
      }
    }
  }

  lemma {:induction false} ElemsAgree(d: bytes, i: nat, items: seq<Value>, open: seq<Bracket>)
    requires i <= |d|
    ensures Agrees(ParseElems(d, i, items), Ends(d, i, Going(Between, open + [InArray])), d, open)
    decreases |d| - i, 1
  {
    var c := Going(Between, open + [InArray]);
    if i == |d| {
      EndsStay(d, i, c);
    } else {
      EndsNext(d, i, c);
      assert c.open[..|c.open| - 1] == open;
      if d[i] == VAR || d[i] == TABLE_CLOSE {
        EndsStay(d, i + 1, Stuck);
        ElemWithoutProgress(d, i, items);
      } else if d[i] != ARRAY_CLOSE {
        ValueAgrees(d, i, c.open);
        var r := Parse(d, i);
        if r.Parsed? {
          ElemsAgree(d, r.end, items + [r.value], open);
        }
      }
    }
  }

  lemma {:induction false} UnmarshalAgrees(d: bytes, i: nat, entries: seq<(bytes, Value)>)
    requires i <= |d|
    ensures match UnmarshalFrom(d, i, entries)
            case Success(_) => Ends(d, i, START) == Accepted
            case Failure => Ends(d, i, START) == Rejected
            case NoReturn => Ends(d, i, START) == Endless
    decreases |d| - i
  {
    if i == |d| {
      EndsStay(d, i, START);
    } else {
      EndsNext(d, i, START);
      if d[i] == VAR {
        var j := KeyEnd(d, i + 1);
        KeySkips(d, i + 1, []);
        ValueAgrees(d, j, []);
        var r := Parse(d, j);
        if r.Parsed? {
          UnmarshalAgrees(d, r.end, entries + [(d[i + 1..j], r.value)]);
        }
      } else {
        EndsStay(d, i + 1, Broken);
      }
    }
  }

  /**
   What unmarshalling does with any data: it never returns if and only if the scan gets stuck, and reports
   an error if and only if the scan meets something malformed or ends within a bracket.
   */
  lemma ReturnsExactly(d: bytes)
    ensures Unmarshal(d) == NoReturn <==> Hangs(d)
    ensures Unmarshal(d) == Failure <==> IsMalformed(d)
    ensures IsMalformed(d) <==> Scanned(START, d).Broken? || (Scanned(START, d).Going? && Scanned(START, d).open != [])
    ensures Hangs(d) <==> Scanned(START, d).Stuck?
  {
    UnmarshalAgrees(d, 0, []);
    assert d[0..] == d;
  }

  // ---------------------------------------------------------------------------------------------
  // Which marshalled maps hang
  // ---------------------------------------------------------------------------------------------

  /**
   Nothing in the value cuts short what is around it: keys and strings outside arrays are as in
   `Representable`; strings in arrays may contain anything but ARRAY_CLOSE; and no array directly
   follows a string in an array.
   */
  predicate Regular(v: Value, inArray: bool) {
    match v
    case Text(s) => if inArray then ARRAY_CLOSE !in s else TextOk(s)
    case Table(t) => forall k :: k in t ==> KeyOk(k) && Regular(t[k], false)
    case Array(items) => RegularItems(items, false)
  }

  predicate RegularItems(items: seq<Value>, afterText: bool) {
    items == [] || (!(afterText && items[0].Array?) && Regular(items[0], true) && RegularItems(items[1..], items[0].Text?))
  }

  predicate RegularMap(m: map<bytes, Value>) {
    forall k :: k in m ==> KeyOk(k) && Regular(m[k], false)
  }

  /** Somewhere in an array is a string with VAR or TABLE_CLOSE in it, or a table directly after a string. */
  predicate Traps(v: Value, inArray: bool) {
    match v
    case Text(s) => inArray && (VAR in s || TABLE_CLOSE in s)
    case Table(t) => exists k :: k in t && Traps(t[k], false)
    case Array(items) => ItemsTrap(items, false)
  }

  predicate ItemsTrap(items: seq<Value>, afterText: bool) {
    items != [] && ((afterText && items[0].Table?) || Traps(items[0], true) || ItemsTrap(items[1..], items[0].Text?))
  }

  predicate MapTraps(m: map<bytes, Value>) {
    exists k :: k in m && Traps(m[k], false)
  }

  // The same on what is printed.

  predicate RegularPrint(o: Ordered, inArray: bool) {
    match o
    case OText(s) => if inArray then ARRAY_CLOSE !in s else TextOk(s)
    case OTable(pairs) => RegularPairs(pairs)
    case OArray(elems) => RegularElems(elems, false)
  }

  predicate RegularPairs(pairs: seq<Entry>) {
    pairs == [] || (KeyOk(pairs[0].key) && RegularPrint(pairs[0].value, false) && RegularPairs(pairs[1..]))
  }

  predicate RegularElems(elems: seq<Ordered>, afterText: bool) {
    elems == [] ||
    (!(afterText && elems[0].OArray?) && RegularPrint(elems[0], true) && RegularElems(elems[1..], elems[0].OText?))
  }

  predicate PrintTraps(o: Ordered, inArray: bool) {
    match o
    case OText(s) => inArray && (VAR in s || TABLE_CLOSE in s)
    case OTable(pairs) => PairsTrap(pairs)
    case OArray(elems) => ElemsTrap(elems, false)
  }

  predicate PairsTrap(pairs: seq<Entry>) {
    pairs != [] && (PrintTraps(pairs[0].value, false) || PairsTrap(pairs[1..]))
  }

  predicate ElemsTrap(elems: seq<Ordered>, afterText: bool) {
    elems != [] &&
    ((afterText && elems[0].OTable?) || PrintTraps(elems[0], true) || ElemsTrap(elems[1..], elems[0].OText?))
  }

  lemma {:induction false} ScanConcat(c: Scan, s: bytes, t: bytes)
    ensures Scanned(c, s + t) == Scanned(Scanned(c, s), t)
    decreases s
  {
    if s == [] {
      assert s + t == t;
    } else {
      assert (s + t)[0] == s[0] && (s + t)[1..] == s[1..] + t;
      ScanConcat(Next(c, s[0]), s[1..], t);
    }
  }

  lemma ScanByte(c: Scan, b: byte, s: bytes)
    ensures Scanned(c, [b] + s) == Scanned(Next(c, b), s)
    ensures Scanned(c, [b]) == Next(c, b)
  {
    assert ([b] + s)[1..] == s && [b][1..] == [];
  }

  lemma {:induction false} ScanStuck(s: bytes)
    ensures Scanned(Stuck, s) == Stuck
  {
    if s != [] {
      ScanStuck(s[1..]);
    }
  }

  predicate WithinArray(open: seq<Bracket>) {
    open != [] && open[|open| - 1] == InArray
  }

  lemma {:induction false} ScanText(open: seq<Bracket>, s: bytes)
    requires if WithinArray(open) then ARRAY_CLOSE !in s else TextOk(s)
    ensures Scanned(Going(InText, open), s)
            == if WithinArray(open) && (VAR in s || TABLE_CLOSE in s) then Stuck else Going(InText, open)
  {
    if s != [] {
      var b, rest := s[0], s[1..];
      assert s == [b] + rest && b in s;
      if WithinArray(open) && (b == VAR || b == TABLE_CLOSE) {
        ScanStuck(rest);
      } else {
        ScanText(open, rest);
      }
    }
  }

  lemma {:induction false} ScanKey(open: seq<Bracket>, k: bytes)
    requires KeyOk(k)
    ensures Scanned(Going(InKey, open), k) == Going(InKey, open)
  {
    if k != [] {
      assert k[0] in k;
      ScanKey(open, k[1..]);
    }
  }

  /** Where a value may be printed: after a key, or in an array. */
  predicate Expects(c: Scan) {
    c.Going? && (c.mode == InKey || WithinArray(c.open))
  }

  predicate AfterText(c: Scan) {
    c.Going? && c.mode == InText
  }

  /** What scanning a printed value comes to. */
  lemma {:induction false} ScanPrinted(c: Scan, o: Ordered)
    requires Expects(c) && RegularPrint(o, c.mode != InKey) && !(AfterText(c) && o.OArray?)
    requires c.mode == InKey ==> !WithinArray(c.open)
    ensures Scanned(c, Print(o))
            == if (AfterText(c) && o.OTable?) || PrintTraps(o, c.mode != InKey) then Stuck
               else Going(if o.OText? then InText else Between, c.open)
    decreases o, 2
  {
    match o
    case OText(s) =>
      ScanByte(c, VAL, s);
      ScanText(c.open, s);
    case OTable(pairs) => ScanTable(c, pairs);
    case OArray(elems) =>
      var inner := Going(Between, c.open + [InArray]);
      ScanByte(c, ARRAY_OPEN, PrintElems(elems) + [ARRAY_CLOSE]);
      ScanElems(inner, elems);
      ScanConcat(inner, PrintElems(elems), [ARRAY_CLOSE]);
      ScanStuck([ARRAY_CLOSE]);
      assert inner.open[..|c.open|] == c.open;
  }

  lemma {:induction false} ScanTable(c: Scan, pairs: seq<Entry>)
    requires Expects(c) && RegularPairs(pairs) && (c.mode == InKey ==> !WithinArray(c.open))
    ensures Scanned(c, Print(OTable(pairs)))
            == if AfterText(c) || PairsTrap(pairs) then Stuck else Going(Between, c.open)
    decreases pairs, 1
  {
    var body := PrintPairs(pairs) + [TABLE_CLOSE];
    ScanByte(c, TABLE_OPEN, body);
    if AfterText(c) {
      // The bracket goes into the string; what follows it is VAR or TABLE_CLOSE.
      assert Next(c, TABLE_OPEN) == c && Next(c, body[0]) == Stuck;
      ScanStuck(body[1..]);
    } else {
      var inner := Going(Between, c.open + [InTable]);
      ScanPairs(inner, pairs);
      ScanConcat(inner, PrintPairs(pairs), [TABLE_CLOSE]);
      ScanStuck([TABLE_CLOSE]);
      assert inner.open[..|c.open|] == c.open;
    }
  }

  /** Entries, in a table or at the top. */
  lemma {:induction false} ScanPairs(c: Scan, pairs: seq<Entry>)
    requires c.Going? && c.mode != InKey && !WithinArray(c.open) && RegularPairs(pairs)
    ensures var r := Scanned(c, PrintPairs(pairs));
            if PairsTrap(pairs) then r == Stuck else r.Going? && r.mode != InKey && r.open == c.open
    decreases pairs, 0
  {
    if pairs != [] {
      var p, rest, key := pairs[0], PrintPairs(pairs[1..]), Going(InKey, c.open);
      ScanByte(c, VAR, p.key + (Print(p.value) + rest));
      ScanConcat(key, p.key, Print(p.value) + rest);
      ScanKey(c.open, p.key);
      ScanConcat(key, Print(p.value), rest);
      ScanPrinted(key, p.value);
      if PrintTraps(p.value, false) {
        ScanStuck(rest);
      } else {
        ScanPairs(Scanned(key, Print(p.value)), pairs[1..]);
      }
    }
  }

  lemma {:induction false} ScanElems(c: Scan, elems: seq<Ordered>)
    requires c.Going? && c.mode != InKey && WithinArray(c.open) && RegularElems(elems, AfterText(c))
    ensures var r := Scanned(c, PrintElems(elems));
            if ElemsTrap(elems, AfterText(c)) then r == Stuck else r.Going? && r.mode != InKey && r.open == c.open
    decreases elems, 0
  {
    if elems != [] {
      var e, rest := elems[0], PrintElems(elems[1..]);
      ScanConcat(c, Print(e), rest);
      ScanPrinted(c, e);
      if (AfterText(c) && e.OTable?) || PrintTraps(e, true) {
        ScanStuck(rest);
      } else {
        ScanElems(Scanned(c, Print(e)), elems[1..]);
      }
    }
  }

  // From what is printed back to the map.

  lemma {:induction false} PairsOneByOne(pairs: seq<Entry>)
    ensures RegularPairs(pairs) <==> forall i :: 0 <= i < |pairs| ==> KeyOk(pairs[i].key) && RegularPrint(pairs[i].value, false)
    ensures PairsTrap(pairs) <==> exists i :: 0 <= i < |pairs| && PrintTraps(pairs[i].value, false)
  {
    if pairs != [] {
      var rest := pairs[1..];
      PairsOneByOne(rest);
      assert forall i :: 0 < i < |pairs| ==> pairs[i] == rest[i - 1];
      assert forall i :: 0 <= i < |rest| ==> rest[i] == pairs[i + 1];
    }
  }

  lemma {:induction false} PrintIsValue(o: Ordered, inArray: bool)
    requires Distinct(o)
    ensures RegularPrint(o, inArray) <==> Regular(Forget(o), inArray)
    ensures PrintTraps(o, inArray) <==> Traps(Forget(o), inArray)
    decreases o, 1
  {
    match o
    case OText(_) =>
    case OTable(pairs) => PairsAreMap(pairs);
    case OArray(elems) => ElemsAreItems(elems, false);
  }

  lemma {:induction false} PairsAreMap(pairs: seq<Entry>)
    requires AllDistinct(pairs)
    ensures RegularPairs(pairs) <==> RegularMap(Collect(AddPairs([], pairs)))
    ensures PairsTrap(pairs) <==> MapTraps(Collect(AddPairs([], pairs)))
    decreases pairs, 0
  {
    var m := Collect(AddPairs([], pairs));
    PairsOneByOne(pairs);
    EntriesOfMap(pairs);
    forall i | 0 <= i < |pairs|
      ensures RegularPrint(pairs[i].value, false) <==> Regular(m[pairs[i].key], false)
      ensures PrintTraps(pairs[i].value, false) <==> Traps(m[pairs[i].key], false)
    {
      PrintIsValue(pairs[i].value, false);
    }
  }

  lemma AddElemsFirst(elems: seq<Ordered>)
    requires elems != []
    ensures AddElems([], elems) == [Forget(elems[0])] + AddElems([], elems[1..])
  {
    AddElemsAre([], elems);
    AddElemsAre([], elems[1..]);
  }

  lemma {:induction false} ElemsAreItems(elems: seq<Ordered>, afterText: bool)
    requires forall i :: 0 <= i < |elems| ==> Distinct(elems[i])
    ensures RegularElems(elems, afterText) <==> RegularItems(AddElems([], elems), afterText)
    ensures ElemsTrap(elems, afterText) <==> ItemsTrap(AddElems([], elems), afterText)
    decreases elems, 0
  {
    if elems != [] {
      AddElemsFirst(elems);
      PrintIsValue(elems[0], true);
      ElemsAreItems(elems[1..], elems[0].OText?);
      assert AddElems([], elems)[1..] == AddElems([], elems[1..]);
    }
  }

  /**
   A marshalled map in which nothing is cut short makes unmarshalling never return, in whatever order its
   tables are enumerated, if and only if some array in it holds a string with VAR or TABLE_CLOSE, or a
   table directly after a string.
   */
  lemma MarshalledHangsExactly(m: map<bytes, Value>, pairs: seq<Entry>)
    requires Enumerates(pairs, m) && RegularMap(m)
    ensures Unmarshal(PrintPairs(pairs)) == NoReturn <==> MapTraps(m)
  {
    PairsAreMap(pairs);
    ScanPairs(START, pairs);
    ReturnsExactly(PrintPairs(pairs));
  }
}
