/**
 What the terminal reports by subnegotiation, its type and its window size, and what becomes of a report
 on its way.
 */
module Reports {
  import opened Telnet
  import opened Automaton
  import opened Codec

  const NAWS: byte := 31
  const TTYPE: byte := 24

  /** What the peer has reported of its terminal. */
  datatype Terminal = Terminal(kind: seq<byte>, width: nat, height: nat)

  /** Two bytes as a number, the high one first. */
  function Word(high: nat, low: nat): nat {
    256 * high + low
  }

  /** What a subnegotiation reports: the terminal type after an IS byte, or the window size. */
  function Reported(t: Terminal, option: byte, data: seq<byte>): Terminal {
    if option == TTYPE && |data| > 1 && data[0] == 0 then t.(kind := data[1..])
    else if option == NAWS && |data| >= 4 then t.(width := Word(data[0], data[1]), height := Word(data[2], data[3]))
    else t
  }

  /** Nothing else is taken over. */
  lemma OnlyReportsAreRead(t: Terminal, option: byte, data: seq<byte>)
    requires Reported(t, option, data) != t
    ensures (option == 24 && |data| > 1 && data[0] == 0) || (option == 31 && |data| >= 4)
  {
  }

  type u16 = x: nat | x < 0x1_0000

  /** What SendNAWS sends. */
  function WindowSize(width: u16, height: u16): seq<byte> {
    [width / 256, width % 256, height / 256, height % 256]
  }

  /** What SendTType sends. */
  function TypeReport(kind: seq<byte>): seq<byte> {
    [0] + kind
  }

  /** Every window size is taken over as it was, and every terminal type but the empty one. */
  lemma ReportsAreRead(t: Terminal, width: u16, height: u16, kind: seq<byte>)
    ensures Reported(t, NAWS, WindowSize(width, height)) == t.(width := width, height := height)
    ensures Reported(t, TTYPE, TypeReport(kind)) == if kind == [] then t else t.(kind := kind)
  {
  }

  /** Only the first four bytes of a window size count, and each of them does. */
  lemma FirstFourCount(t: Terminal, p: seq<byte>, q: seq<byte>)
    requires |p| == 4 && |q| >= 4
    ensures Reported(t, NAWS, q) == Reported(t, NAWS, p) <==> p <= q
  {
    assert p == q[..4] <==> p[0] == q[0] && p[1] == q[1] && p[2] == q[2] && p[3] == q[3];
  }

  /**
   Through the framing and the peer's parser a window size arrives if and only if its bytes have nothing but
   255 after the first 255, since the doubling is not undone.
   */
  lemma WindowSizeArrives(t: Terminal, width: u16, height: u16)
    ensures Reported(t, NAWS, Received(WindowSize(width, height))) == t.(width := width, height := height)
            <==> OnlyIACAfterIAC(WindowSize(width, height))
  {
    var p := WindowSize(width, height);
    ReportsAreRead(t, width, height, []);
    EscapeLength(p);
    CountAtMost(p);
    FirstFourCount(t, p, Received(p));
    if OnlyIACAfterIAC(p) {
      EscapeOfTail(p);
    }
    if p <= Escape(p) {
      TailFromEscape(p);
    }
  }

  /** A window 255 wide and 24 high arrives as one 65280 high. */
  lemma WideWindowIsMisread(t: Terminal)
    ensures Reported(t, NAWS, Received(WindowSize(255, 24))) == t.(width := 255, height := 65280)
  {
    var p: seq<byte> := [0, 255, 0, 24];
    assert Escape(p) == [0, 255, 255, 0, 24] by {
      EscapeSnoc([0, 255, 0], 24);
      EscapeSnoc([0, 255], 0);
      EscapeSnoc([0], 255);
      EscapeLength([0]);
      assert [0] + [255] == [0, 255 as byte] && [0, 255] + [0] == [0, 255, 0 as byte] && [0, 255, 0] + [24] == p;
    }
  }

  /** A terminal type arrives if and only if, with the byte before it, it is a payload that framing preserves. */
  lemma TypeArrives(t: Terminal, kind: seq<byte>)
    requires kind != []
    ensures Reported(t, TTYPE, Received(TypeReport(kind))) == t.(kind := kind) <==> SurvivesFraming(TypeReport(kind))
  {
    var p := TypeReport(kind);
    var r := Received(p);
    FramingIsExact(p);
    EscapeConcat([0], kind);
    EscapeLength([0]);
    EscapeLength(kind);
    assert Escape(p) == [0] + Escape(kind);
    assert r == p <==> r[1..] == kind by {
      assert r[0] == 0;
      assert r == [0] + r[1..];
    }
  }
}
