/**
 The concrete syntax of MSDP, as the parser takes it: keys may repeat, a string in an array may lack its
 VAL, and the data may end behind a key. Unmarshalling succeeds on exactly the data so written, with what
 it means.
 */
module MsdpText {
  import opened Telnet
  import opened Msdp

  /** A value as it is written; `marked` tells whether a string has its VAL. */
  datatype Written =
    | WText(marked: bool, text: bytes)
    | WTable(pairs: seq<WEntry>)
    | WArray(elems: seq<Written>)

  datatype WEntry = WEntry(key: bytes, value: Written)

  function Spell(w: Written): bytes {
    match w
    case WText(marked, s) => if marked then [VAL] + s else s
    case WTable(pairs) => [TABLE_OPEN] + (SpellPairs(pairs) + [TABLE_CLOSE])
    case WArray(elems) => [ARRAY_OPEN] + (SpellElems(elems) + [ARRAY_CLOSE])
  }

  function SpellPairs(pairs: seq<WEntry>): bytes {
    if pairs == [] then [] else [VAR] + (pairs[0].key + (Spell(pairs[0].value) + SpellPairs(pairs[1..])))
  }

  function SpellElems(elems: seq<Written>): bytes {
    if elems == [] then [] else Spell(elems[0]) + SpellElems(elems[1..])
  }

  /** What it means; of entries with the same key the last one counts. */
  function Meaning(w: Written): Value {
    match w
    case WText(_, s) => Text(s)
    case WTable(pairs) => Table(PairsMeaning(pairs))
    case WArray(elems) => Array(ElemsMeaning(elems))
  }

  function PairsMeaning(pairs: seq<WEntry>): map<bytes, Value> {
    if pairs == [] then map[] else map[pairs[0].key := Meaning(pairs[0].value)] + PairsMeaning(pairs[1..])
  }

  function ElemsMeaning(elems: seq<Written>): seq<Value> {
    if elems == [] then [] else [Meaning(elems[0])] + ElemsMeaning(elems[1..])
  }

  /** A value as it may stand behind a key; at the very end of the data there may be nothing. */
  predicate ValueOk(w: Written, atEnd: bool) {
    match w
    case WText(marked, s) => TextOk(s) && (marked || (atEnd && s == []))
    case WTable(pairs) => PairsOk(pairs, false)
    case WArray(elems) => ElemsOk(elems, false)
  }

  predicate PairsOk(pairs: seq<WEntry>, toEnd: bool) {
    pairs == [] ||
    (KeyOk(pairs[0].key) && ValueOk(pairs[0].value, toEnd && |pairs| == 1) && PairsOk(pairs[1..], toEnd))
  }

  /** After a string only a marked string can begin; elsewhere one without mark may, if not with a bracket. */
  predicate ElemsOk(elems: seq<Written>, afterText: bool) {
    elems == [] ||
    ((match elems[0]
      case WText(marked, s) => TextOk(s) && (marked || (!afterText && s != [] && !EndsKey(s[0])))
      case _ => !afterText && ValueOk(elems[0], false))
     && ElemsOk(elems[1..], elems[0].WText?))
  }

  // ---------------------------------------------------------------------------------------------
  // What is accepted is so written
  // ---------------------------------------------------------------------------------------------

  lemma SplitAt(d: bytes, i: nat, j: nat, k: nat)
    requires i <= j <= k <= |d|
    ensures d[i..k] == d[i..j] + d[j..k]
  {
  }

  /** A value that was parsed, as it was written. */
  lemma {:induction false} ValueWritten(d: bytes, i: nat) returns (w: Written)
    requires i <= |d| && Parse(d, i).Parsed?
    ensures var r := Parse(d, i);
            && d[i..r.end] == Spell(w) && r.value == Meaning(w)
            && (w.WText? ==> TextOk(w.text) && (r.end < |d| ==> EndsText(d[r.end])))
            && (w.WText? && !w.marked ==> w.text == d[i..r.end] && (i < |d| ==> !EndsKey(d[i])))
            && (!w.WText? ==> ValueOk(w, false) && (d[i] == TABLE_OPEN || d[i] == ARRAY_OPEN))
            && (w.WText? && w.marked ==> d[i] == VAL)
    decreases |d| - i, 0
  {
    var end := Parse(d, i).end;
    if i == |d| {
      w := WText(false, []);
    } else if d[i] == VAL {
      TextEndOk(d, i + 1);
      w := WText(true, d[i + 1..end]);
      assert d[i..end] == [VAL] + d[i + 1..end];
    } else if d[i] == TABLE_OPEN {
      var pairs := PairsWritten(d, i + 1, []);
      w := WTable(pairs);
      assert d[i..end] == [TABLE_OPEN] + d[i + 1..end];
      assert map[] + PairsMeaning(pairs) == PairsMeaning(pairs);
    } else if d[i] == ARRAY_OPEN {
      var elems := ElemsWritten(d, i + 1, [], false);
      w := WArray(elems);
      assert d[i..end] == [ARRAY_OPEN] + d[i + 1..end];
      assert [] + ElemsMeaning(elems) == ElemsMeaning(elems);
    } else {
      TextEndOk(d, i);
      w := WText(false, d[i..end]);
    }
  }

  /** One more entry, in either loop. */
  lemma EntryMeans(entries: seq<(bytes, Value)>, key: bytes, v: Value, more: map<bytes, Value>)
    ensures Collect(entries + [(key, v)]) + more == Collect(entries) + (map[key := v] + more)
  {
    assert (entries + [(key, v)])[..|entries|] == entries;
  }

  lemma EntrySpelt(d: bytes, i: nat, j: nat, k: nat, end: nat, v: bytes, rest: bytes)
    requires i < j <= k <= end <= |d| && d[i] == VAR && d[j..k] == v && d[k..end] == rest
    ensures d[i..end] == [VAR] + (d[i + 1..j] + (v + rest))
  {
    SplitAt(d, i + 1, j, end);
    SplitAt(d, j, k, end);
    assert d[i..end] == [VAR] + d[i + 1..end];
  }

  /** What an entry in front adds. */
  lemma OnePairMore(key: bytes, w: Written, rest: seq<WEntry>)
    ensures var pairs := [WEntry(key, w)] + rest;
            && SpellPairs(pairs) + [TABLE_CLOSE] == [VAR] + (key + (Spell(w) + (SpellPairs(rest) + [TABLE_CLOSE])))
            && SpellPairs(pairs) == [VAR] + (key + (Spell(w) + SpellPairs(rest)))
            && PairsMeaning(pairs) == map[key := Meaning(w)] + PairsMeaning(rest)
            && (KeyOk(key) && ValueOk(w, false) && PairsOk(rest, false) ==> PairsOk(pairs, false))
  {
    assert ([WEntry(key, w)] + rest)[1..] == rest;
    assert [VAR] + (key + (Spell(w) + (SpellPairs(rest) + [TABLE_CLOSE])))
           == [VAR] + (key + (Spell(w) + SpellPairs(rest))) + [TABLE_CLOSE];
  }

  lemma {:induction false} PairsWritten(d: bytes, i: nat, entries: seq<(bytes, Value)>) returns (pairs: seq<WEntry>)
    requires i <= |d| && ParsePairs(d, i, entries).Parsed?
    ensures var r := ParsePairs(d, i, entries);
            && d[i..r.end] == SpellPairs(pairs) + [TABLE_CLOSE] && PairsOk(pairs, false)
            && r.value == Table(Collect(entries) + PairsMeaning(pairs))
    decreases |d| - i, 1
  {
    var end := ParsePairs(d, i, entries).end;
    if d[i] == TABLE_CLOSE {
      pairs := [];
      assert d[i..end] == [] + [TABLE_CLOSE] && Collect(entries) + map[] == Collect(entries);
    } else {
      var j := KeyEnd(d, i + 1);
      var key, r := d[i + 1..j], Parse(d, j);
      assert r.end < |d| && j < |d|;
      var w := ValueWritten(d, j);
      var rest := PairsWritten(d, r.end, entries + [(key, r.value)]);
      pairs := [WEntry(key, w)] + rest;
      KeyEndOk(d, i + 1);
      OnePairMore(key, w, rest);
      EntrySpelt(d, i, j, r.end, end, Spell(w), SpellPairs(rest) + [TABLE_CLOSE]);
      EntryMeans(entries, key, r.value, PairsMeaning(rest));
    }
  }

  lemma {:induction false} ElemsWritten(d: bytes, i: nat, items: seq<Value>, afterText: bool) returns (elems: seq<Written>)
    requires i <= |d| && ParseElems(d, i, items).Parsed? && (afterText && i < |d| ==> EndsText(d[i]))
    ensures var r := ParseElems(d, i, items);
            && d[i..r.end] == SpellElems(elems) + [ARRAY_CLOSE] && ElemsOk(elems, afterText)
            && r.value == Array(items + ElemsMeaning(elems))
    decreases |d| - i, 1
  {
    var end := ParseElems(d, i, items).end;
    if d[i] == ARRAY_CLOSE {
      elems := [];
      assert d[i..end] == [] + [ARRAY_CLOSE] && items + [] == items;
    } else {
      var r := Parse(d, i);
      var w := ValueWritten(d, i);
      var rest := ElemsWritten(d, r.end, items + [r.value], w.WText?);
      elems := [w] + rest;
      assert elems[1..] == rest;
      SplitAt(d, i, r.end, end);
      ConcatAssociative(Spell(w), SpellElems(rest), [ARRAY_CLOSE]);
      ConcatAssociative(items, [r.value], ElemsMeaning(rest));
    }
  }

  lemma {:induction false} MapWritten(d: bytes, i: nat, entries: seq<(bytes, Value)>) returns (pairs: seq<WEntry>)
    requires i <= |d| && UnmarshalFrom(d, i, entries).Success?
    ensures d[i..] == SpellPairs(pairs) && PairsOk(pairs, true)
    ensures Collect(UnmarshalFrom(d, i, entries).value) == Collect(entries) + PairsMeaning(pairs)
    decreases |d| - i
  {
    if i == |d| {
      pairs := [];
      assert Collect(entries) + map[] == Collect(entries);
    } else {
      var j := KeyEnd(d, i + 1);
      var key, r := d[i + 1..j], Parse(d, j);
      var w := ValueWritten(d, j);
      var rest := MapWritten(d, r.end, entries + [(key, r.value)]);
      pairs := [WEntry(key, w)] + rest;
      assert pairs[1..] == rest;
      KeyEndOk(d, i + 1);
      assert d[i..|d|] == d[i..] && d[r.end..|d|] == d[r.end..];
      EntrySpelt(d, i, j, r.end, |d|, Spell(w), SpellPairs(rest));
      EntryMeans(entries, key, r.value, PairsMeaning(rest));
    }
  }

  // ---------------------------------------------------------------------------------------------
  // What is so written is accepted
  // ---------------------------------------------------------------------------------------------

  lemma MarkedParses(d: bytes, i: nat, s: bytes)
    requires At(d, i, [VAL] + s) && TextOk(s) && (i + 1 + |s| < |d| ==> EndsText(d[i + 1 + |s|]))
    ensures Parse(d, i) == Parsed(Text(s), i + 1 + |s|)
  {
    AtConcat(d, i, [VAL], s);
    AtByte(d, i, VAL);
    TextEndIs(d, i + 1, i + 1 + |s|);
  }

  lemma BareParses(d: bytes, i: nat, s: bytes)
    requires At(d, i, s) && s != [] && TextOk(s) && !EndsKey(s[0]) && (i + |s| < |d| ==> EndsText(d[i + |s|]))
    ensures i < |d| && d[i] == s[0] && Parse(d, i) == Parsed(Text(s), i + |s|)
  {
    AtFirst(d, i, s);
    TextEndIs(d, i, i + |s|);
  }

  /** The parser takes a value as it is written and stops behind it. */
  lemma {:induction false} ValueParses(d: bytes, i: nat, w: Written)
    requires ValueOk(w, false) && At(d, i, Spell(w))
    requires w.WText? && i + |Spell(w)| < |d| ==> EndsText(d[i + |Spell(w)|])
    ensures Parse(d, i) == Parsed(Meaning(w), i + |Spell(w)|)
    decreases w, 1
  {
    match w
    case WText(_, s) => MarkedParses(d, i, s);
    case WTable(pairs) =>
      var end := i + 1 + |SpellPairs(pairs)|;
      AtBrackets(d, i, TABLE_OPEN, SpellPairs(pairs), TABLE_CLOSE);
      var entries := PairsParse(d, i + 1, [], pairs);
      assert map[] + PairsMeaning(pairs) == PairsMeaning(pairs);
      assert ParsePairs(d, end, entries) == Parsed(Table(Collect(entries)), end + 1);
    case WArray(elems) =>
      AtBrackets(d, i, ARRAY_OPEN, SpellElems(elems), ARRAY_CLOSE);
      ElemsParse(d, i + 1, [], elems, false);
      assert [] + ElemsMeaning(elems) == ElemsMeaning(elems);
  }

  /** Entries as they are written take either loop from their start to their end. */
  lemma {:induction false} PairsParse(d: bytes, i: nat, entries: seq<(bytes, Value)>, pairs: seq<WEntry>)
    returns (all: seq<(bytes, Value)>)
    requires At(d, i, SpellPairs(pairs)) && PairsOk(pairs, i + |SpellPairs(pairs)| == |d|)
    requires i + |SpellPairs(pairs)| < |d| ==> EndsText(d[i + |SpellPairs(pairs)|])
    ensures Leads(d, i, entries, i + |SpellPairs(pairs)|, all)
    ensures Collect(all) == Collect(entries) + PairsMeaning(pairs)
    decreases pairs, 1
  {
    if pairs == [] {
      all := entries;
      assert Collect(entries) + map[] == Collect(entries);
    } else {
      var next, entries' := FirstPairParses(d, i, entries, pairs);
      all := PairsParse(d, next, entries', pairs[1..]);
      EntryMeans(entries, pairs[0].key, Meaning(pairs[0].value), PairsMeaning(pairs[1..]));
    }
  }

  lemma {:induction false} FirstPairParses(d: bytes, i: nat, entries: seq<(bytes, Value)>, pairs: seq<WEntry>)
    returns (next: nat, entries': seq<(bytes, Value)>)
    requires pairs != [] && At(d, i, SpellPairs(pairs)) && PairsOk(pairs, i + |SpellPairs(pairs)| == |d|)
    requires i + |SpellPairs(pairs)| < |d| ==> EndsText(d[i + |SpellPairs(pairs)|])
    ensures At(d, next, SpellPairs(pairs[1..])) && next + |SpellPairs(pairs[1..])| == i + |SpellPairs(pairs)|
    ensures Leads(d, i, entries, next, entries') && entries' == entries + [(pairs[0].key, Meaning(pairs[0].value))]
    decreases pairs, 0
  {
    var key, w, rest := pairs[0].key, pairs[0].value, SpellPairs(pairs[1..]);
    var v;
    if ValueOk(w, false) {
      assert StopsAt(d, i + 1 + |key| + |Spell(w)|, w) by {
        ValueStops(d, i, pairs);
      }
      next, v := PairParses(d, i, entries, key, w, rest);
    } else {
      // Nothing behind the key: it is the last, and the data ends there.
      assert rest == [] && w == WText(false, []) && i + |SpellPairs(pairs)| == |d|;
      next, v := |d|, Text([]);
      assert At(d, i, [VAR] + key) && |SpellPairs(pairs)| == 1 + |key| by {
        assert SpellPairs(pairs) == [VAR] + (key + ([] + [])) == [VAR] + key;
      }
      assert Leads(d, i, entries, next, entries + [(key, v)]) by {
        LoneKeyParses(d, i, entries, key);
      }
    }
    entries' := entries + [(key, v)];
  }

  lemma ValueStops(d: bytes, i: nat, pairs: seq<WEntry>)
    requires pairs != [] && At(d, i, SpellPairs(pairs))
    requires i + |SpellPairs(pairs)| < |d| ==> EndsText(d[i + |SpellPairs(pairs)|])
    ensures StopsAt(d, i + 1 + |pairs[0].key| + |Spell(pairs[0].value)|, pairs[0].value)
  {
    var key, v, rest := pairs[0].key, Spell(pairs[0].value), SpellPairs(pairs[1..]);
    if rest != [] {
      var front := [VAR] + key + v;
      assert [VAR] + (key + (v + rest)) == front + rest;
      assert At(d, i + |front|, rest) by {
        AtConcat(d, i, front, rest);
      }
      AtFirst(d, i + |front|, rest);
    }
  }

  /** What stands behind a written value lets the parser stop there. */
  predicate StopsAt(d: bytes, next: nat, w: Written) {
    w.WText? && next < |d| ==> EndsText(d[next])
  }

  lemma {:induction false} PairParses(d: bytes, i: nat, entries: seq<(bytes, Value)>, key: bytes, w: Written, rest: bytes)
    returns (next: nat, v: Value)
    requires KeyOk(key) && ValueOk(w, false) && At(d, i, [VAR] + (key + (Spell(w) + rest)))
    requires StopsAt(d, i + 1 + |key| + |Spell(w)|, w)
    ensures next == i + 1 + |key| + |Spell(w)| && v == Meaning(w)
    ensures At(d, next, rest) && Leads(d, i, entries, next, entries + [(key, v)])
    decreases w, 2
  {
    var j := i + 1 + |key|;
    next, v := j + |Spell(w)|, Meaning(w);
    assert i < |d| && d[i] == VAR && j <= |d| && d[i + 1..j] == key && KeyEnd(d, i + 1) == j
           && At(d, j, Spell(w)) && At(d, next, rest) by {
      EntryParts(d, i, key, Spell(w), rest);
    }
    assert Leads(d, i, entries, next, entries + [(key, v)]) by {
      ValueParses(d, j, w);
      PairTurn(d, i, j, next, key, v, entries);
    }
  }

  lemma LoneKeyParses(d: bytes, i: nat, entries: seq<(bytes, Value)>, key: bytes)
    requires KeyOk(key) && At(d, i, [VAR] + key) && i + 1 + |key| == |d|
    ensures Leads(d, i, entries, |d|, entries + [(key, Text([]))])
  {
    AtConcat(d, i, [VAR], key);
    AtByte(d, i, VAR);
    KeyEndIs(d, i + 1, |d|);
    PairTurn(d, i, |d|, |d|, key, Text([]), entries);
  }

  /** Elements as they are written take the array loop to its end. */
  lemma {:induction false} ElemsParse(d: bytes, i: nat, items: seq<Value>, elems: seq<Written>, afterText: bool)
    requires At(d, i, SpellElems(elems)) && ElemsOk(elems, afterText)
    requires i + |SpellElems(elems)| < |d| && d[i + |SpellElems(elems)|] == ARRAY_CLOSE
    ensures ParseElems(d, i, items) == Parsed(Array(items + ElemsMeaning(elems)), i + |SpellElems(elems)| + 1)
    decreases elems, 1
  {
    if elems == [] {
      assert items + [] == items;
    } else {
      var w, rest := elems[0], elems[1..];
      var next := i + |Spell(w)|;
      AtConcat(d, i, Spell(w), SpellElems(rest));
      FirstElemParses(d, i, elems, afterText);
      ElemTurn(d, i, next, Meaning(w), items);
      ElemsParse(d, next, items + [Meaning(w)], rest, w.WText?);
      ConcatAssociative(items, [Meaning(w)], ElemsMeaning(rest));
    }
  }

  lemma {:induction false} FirstElemParses(d: bytes, i: nat, elems: seq<Written>, afterText: bool)
    requires elems != [] && At(d, i, SpellElems(elems)) && ElemsOk(elems, afterText)
    requires i + |SpellElems(elems)| < |d| && d[i + |SpellElems(elems)|] == ARRAY_CLOSE
    ensures i < |d| && d[i] != ARRAY_CLOSE && Spell(elems[0]) != []
    ensures Parse(d, i) == Parsed(Meaning(elems[0]), i + |Spell(elems[0])|)
    decreases elems, 0
  {
    var w, rest := elems[0], elems[1..];
    var next := i + |Spell(w)|;
    AtConcat(d, i, Spell(w), SpellElems(rest));
    assert w.WText? ==> next < |d| && EndsText(d[next]) by {
      if w.WText? && rest != [] {
        assert SpellElems(rest)[0] == VAL;
        AtFirst(d, next, SpellElems(rest));
      }
    }
    if w.WText? && !w.marked {
      BareParses(d, i, w.text);
      assert w.text[0] in w.text;
    } else {
      AtFirst(d, i, Spell(w));
      ValueParses(d, i, w);
    }
  }

  /**
   Unmarshalling succeeds with a map if and only if the data is a spelling of entries that mean it, with the
   last of several entries for a key counting.
   */
  lemma UnmarshalsExactly(d: bytes, m: map<bytes, Value>)
    ensures Unmarshal(d) == Success(m)
            <==> exists pairs :: SpellPairs(pairs) == d && PairsOk(pairs, true) && PairsMeaning(pairs) == m
  {
    if Unmarshal(d) == Success(m) {
      var pairs := MapWritten(d, 0, []);
      assert d[0..] == d && Collect([]) + PairsMeaning(pairs) == PairsMeaning(pairs);
    }
    if pairs :| SpellPairs(pairs) == d && PairsOk(pairs, true) && PairsMeaning(pairs) == m {
      assert d[0..|d|] == d;
      var all := PairsParse(d, 0, [], pairs);
      assert Collect([]) + PairsMeaning(pairs) == PairsMeaning(pairs);
      assert UnmarshalFrom(d, |d|, all) == Success(all);
    }
  }

  // ---------------------------------------------------------------------------------------------
  // What is marshalled
  // ---------------------------------------------------------------------------------------------

  /** A value in an enumeration order, as it is written: every string with its VAL. */
  function Marked(o: Ordered): Written {
    match o
    case OText(s) => WText(true, s)
    case OTable(pairs) => WTable(MarkedPairs(pairs))
    case OArray(elems) => WArray(MarkedElems(elems))
  }

  function MarkedPairs(pairs: seq<Entry>): seq<WEntry> {
    if pairs == [] then [] else [WEntry(pairs[0].key, Marked(pairs[0].value))] + MarkedPairs(pairs[1..])
  }

  function MarkedElems(elems: seq<Ordered>): seq<Written> {
    if elems == [] then [] else [Marked(elems[0])] + MarkedElems(elems[1..])
  }

  lemma {:induction false} MarkedIsPrinted(o: Ordered)
    ensures Spell(Marked(o)) == Print(o) && Meaning(Marked(o)) == Forget(o)
    decreases o, 1
  {
    match o
    case OText(_) =>
    case OTable(pairs) =>
      MarkedPairsArePrinted([], pairs);
      assert map[] + PairsMeaning(MarkedPairs(pairs)) == PairsMeaning(MarkedPairs(pairs));
    case OArray(elems) =>
      MarkedElemsArePrinted([], elems);
      assert [] + ElemsMeaning(MarkedElems(elems)) == ElemsMeaning(MarkedElems(elems));
  }

  lemma {:induction false} MarkedPairsArePrinted(entries: seq<(bytes, Value)>, pairs: seq<Entry>)
    ensures SpellPairs(MarkedPairs(pairs)) == PrintPairs(pairs)
    ensures Collect(AddPairs(entries, pairs)) == Collect(entries) + PairsMeaning(MarkedPairs(pairs))
    decreases pairs, 0
  {
    if pairs == [] {
      assert Collect(entries) + map[] == Collect(entries);
    } else {
      var key, v := pairs[0].key, Forget(pairs[0].value);
      MarkedIsPrinted(pairs[0].value);
      MarkedPairsArePrinted(entries + [(key, v)], pairs[1..]);
      EntryMeans(entries, key, v, PairsMeaning(MarkedPairs(pairs[1..])));
      assert MarkedPairs(pairs)[1..] == MarkedPairs(pairs[1..]);
    }
  }

  lemma {:induction false} MarkedElemsArePrinted(items: seq<Value>, elems: seq<Ordered>)
    ensures SpellElems(MarkedElems(elems)) == PrintElems(elems)
    ensures AddElems(items, elems) == items + ElemsMeaning(MarkedElems(elems))
    decreases elems, 0
  {
    if elems == [] {
      assert items + [] == items;
    } else {
      var v := Forget(elems[0]);
      MarkedIsPrinted(elems[0]);
      MarkedElemsArePrinted(items + [v], elems[1..]);
      assert MarkedElems(elems)[1..] == MarkedElems(elems[1..]);
      ConcatAssociative(items, [v], ElemsMeaning(MarkedElems(elems[1..])));
    }
  }

  /** What is marshalled is a spelling of the map, representable or not. */
  lemma MarshalledIsSpelling(m: map<bytes, Value>, pairs: seq<Entry>)
    requires Enumerates(pairs, m)
    ensures PrintPairs(pairs) == SpellPairs(MarkedPairs(pairs)) && PairsMeaning(MarkedPairs(pairs)) == m
  {
    MarkedPairsArePrinted([], pairs);
    assert Collect([]) + PairsMeaning(MarkedPairs(pairs)) == PairsMeaning(MarkedPairs(pairs));
  }

  // ---------------------------------------------------------------------------------------------
  // The round trip
  // ---------------------------------------------------------------------------------------------

  lemma {:induction false} RepresentableIsOk(o: Ordered)
    requires Distinct(o) && Representable(Forget(o))
    ensures ValueOk(Marked(o), false)
    decreases o, 1
  {
    match o
    case OText(_) =>
    case OTable(pairs) => TableIsOk(pairs, false);
    case OArray(elems) =>
      AddElemsAre([], elems);
      forall i | 0 <= i < |elems|
        ensures ValueOk(Marked(elems[i]), false) && (i > 0 && elems[i - 1].OText? ==> elems[i].OText?)
      {
        assert Forget(o).items[i] == Forget(elems[i]) && (i > 0 ==> Forget(o).items[i - 1] == Forget(elems[i - 1]));
        RepresentableIsOk(elems[i]);
      }
      ElemsAreOk(elems, false);
  }

  lemma {:induction false} TableIsOk(pairs: seq<Entry>, toEnd: bool)
    requires AllDistinct(pairs) && TableRepresentable(Collect(AddPairs([], pairs)))
    ensures PairsOk(MarkedPairs(pairs), toEnd)
    decreases pairs, 0
  {
    EntriesOfMap(pairs);
    forall i | 0 <= i < |pairs|
      ensures KeyOk(pairs[i].key) && ValueOk(Marked(pairs[i].value), false)
    {
      RepresentableIsOk(pairs[i].value);
    }
    PairsAreOk(pairs, toEnd);
  }

  lemma {:induction false} PairsAreOk(pairs: seq<Entry>, toEnd: bool)
    requires forall i :: 0 <= i < |pairs| ==> KeyOk(pairs[i].key) && ValueOk(Marked(pairs[i].value), false)
    ensures PairsOk(MarkedPairs(pairs), toEnd)
  {
    if pairs != [] {
      PairsAreOk(pairs[1..], toEnd);
      assert MarkedPairs(pairs)[1..] == MarkedPairs(pairs[1..]);
    }
  }

  lemma {:induction false} ElemsAreOk(elems: seq<Ordered>, afterText: bool)
    requires forall i :: 0 <= i < |elems| ==> ValueOk(Marked(elems[i]), false)
    requires forall i :: 0 <= i < |elems| - 1 && elems[i].OText? ==> elems[i + 1].OText?
    requires afterText && elems != [] ==> elems[0].OText?
    ensures ElemsOk(MarkedElems(elems), afterText)
  {
    if elems != [] {
      assert forall i :: 0 <= i < |elems[1..]| ==> elems[1..][i] == elems[i + 1];
      ElemsAreOk(elems[1..], elems[0].OText?);
      assert MarkedElems(elems)[1..] == MarkedElems(elems[1..]);
    }
  }

  /** What is well spelled is representable. */
  lemma {:induction false} OkIsRepresentable(w: Written, atEnd: bool)
    requires ValueOk(w, atEnd)
    ensures Representable(Meaning(w))
    decreases w, 1
  {
    match w
    case WText(_, _) =>
    case WTable(pairs) => OkPairsAreRepresentable(pairs, false);
    case WArray(elems) => OkElemsAreRepresentable(elems, false);
  }

  lemma {:induction false} OkPairsAreRepresentable(pairs: seq<WEntry>, toEnd: bool)
    requires PairsOk(pairs, toEnd)
    ensures TableRepresentable(PairsMeaning(pairs))
    decreases pairs, 0
  {
    if pairs != [] {
      OkIsRepresentable(pairs[0].value, toEnd && |pairs| == 1);
      OkPairsAreRepresentable(pairs[1..], toEnd);
    }
  }

  lemma {:induction false} OkElemsAreRepresentable(elems: seq<Written>, afterText: bool)
    requires ElemsOk(elems, afterText)
    ensures Representable(Array(ElemsMeaning(elems)))
    ensures afterText && elems != [] ==> Meaning(elems[0]).Text?
    decreases elems, 0
  {
    if elems != [] {
      var items, rest := ElemsMeaning(elems), ElemsMeaning(elems[1..]);
      OkElemsAreRepresentable(elems[1..], elems[0].WText?);
      assert Representable(Meaning(elems[0])) by {
        if !elems[0].WText? {
          OkIsRepresentable(elems[0], false);
        }
      }
      assert items[0] == Meaning(elems[0]) && forall i :: 0 < i < |items| ==> items[i] == rest[i - 1];
      assert elems[1..] != [] ==> rest[0] == Meaning(elems[1..][0]);
    }
  }

  /**
   The round trip, for every map and every enumeration order chosen at each table in it: unmarshalling
   what was marshalled gives the map back if and only if its keys avoid VAL, TABLE_OPEN and ARRAY_OPEN,
   its strings avoid VAR, VAL, TABLE_CLOSE and ARRAY_CLOSE, and in no array does a table or an array
   directly follow a string.
   */
  lemma RoundTrip(m: map<bytes, Value>, pairs: seq<Entry>)
    requires Enumerates(pairs, m)
    ensures Unmarshal(PrintPairs(pairs)) == Success(m) <==> TableRepresentable(m)
  {
    var d := PrintPairs(pairs);
    UnmarshalsExactly(d, m);
    MarshalledIsSpelling(m, pairs);
    if TableRepresentable(m) {
      TableIsOk(pairs, true);
    }
    if written :| SpellPairs(written) == d && PairsOk(written, true) && PairsMeaning(written) == m {
      OkPairsAreRepresentable(written, true);
    }
  }

  /** What the parser accepts it accepts again, unchanged, after printing in any order. */
  lemma ParsedRoundTrips(d: bytes, pairs: seq<Entry>)
    requires Unmarshal(d).Success? && Enumerates(pairs, Unmarshal(d).value)
    ensures TableRepresentable(Unmarshal(d).value)
    ensures Unmarshal(PrintPairs(pairs)) == Unmarshal(d)
  {
    var m := Unmarshal(d).value;
    UnmarshalsExactly(d, m);
    var written :| SpellPairs(written) == d && PairsOk(written, true) && PairsMeaning(written) == m;
    OkPairsAreRepresentable(written, true);
    RoundTrip(m, pairs);
  }
}
