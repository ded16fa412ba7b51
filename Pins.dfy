/** The hardware side of the nixie driver: the fixed pin tables, the electrical
    level that switches a digit on or off, the BCD code on the four shared bus
    lines, and the record of pin writes against which the driver's safety rules
    are stated. A level is a bool: true is HIGH, false is LOW. */
module Pins {
  import Radix

  newtype uint8 = x: int | 0 <= x < 0x100
  newtype uint32 = x: int | 0 <= x < 0x1_0000_0000

  const BusWidth: nat := 4
  const DigitCount: nat := 6

  /** The digit-select driver stage conducts on a HIGH level. */
  const DigitActiveHigh: bool := true

  /** GPIO numbers of the BCD lines A, B, C, D, least significant first. */
  const BcdPins: seq<nat> := [19, 21, 22, 23]

  /** GPIO numbers of the six digit-select lines, units digit first. */
  const DigitPins: seq<nat> := [0, 4, 16, 17, 5, 18]

  /** The ten GPIO numbers are pairwise distinct, so a write to one table entry
      changes exactly one line of one group. This is what allows the pin state
      to be kept as two separate arrays of levels. */
  lemma PinTablesDistinct()
    ensures |BcdPins| == BusWidth && |DigitPins| == DigitCount
    ensures forall i, j | 0 <= i < j < BusWidth :: BcdPins[i] != BcdPins[j]
    ensures forall i, j | 0 <= i < j < DigitCount :: DigitPins[i] != DigitPins[j]
    ensures forall i, j | 0 <= i < BusWidth && 0 <= j < DigitCount :: BcdPins[i] != DigitPins[j]
  {
  }

  // ---- Digit-select polarity ----

  /** The level written to a digit-select line to switch it on or off:
      `on XOR !activeHigh`. */
  function SelectLevel(on: bool, activeHigh: bool): (high: bool)
    ensures high <==> on == activeHigh
  {
    on != !activeHigh
  }

  /** For either polarity, "off" is the level opposite to "on", so each level
      means exactly one of the two. */
  lemma OffIsOppositeOfOn(activeHigh: bool)
    ensures SelectLevel(false, activeHigh) == !SelectLevel(true, activeHigh)
  {
  }

  /** A select line at this level gates its digit onto the bus. */
  predicate IsLit(level: bool)
  {
    level == SelectLevel(true, DigitActiveHigh)
  }

  const OffLevel: bool := SelectLevel(false, DigitActiveHigh)

  /** The number of digits gated on. */
  function LitCount(select: seq<bool>): (c: nat)
    ensures c <= |select|
  {
    if select == [] then 0 else (if IsLit(select[0]) then 1 else 0) + LitCount(select[1..])
  }

  /** No digit is gated on. */
  predicate Dark(select: seq<bool>)
  {
    forall j | 0 <= j < |select| :: !IsLit(select[j])
  }

  lemma {:induction false} DarkIffNoneLit(select: seq<bool>)
    ensures Dark(select) <==> LitCount(select) == 0
  {
    if select != [] {
      DarkIffNoneLit(select[1..]);
      if Dark(select[1..]) && !IsLit(select[0]) {
        forall j | 0 <= j < |select| ensures !IsLit(select[j]) {
          if j > 0 { assert select[j] == select[1..][j - 1]; }
        }
      }
    }
  }

  /** Writing one select line changes the number of lit digits by what that
      line loses and gains. */
  lemma {:induction false} LitCountUpdate(select: seq<bool>, j: nat, level: bool)
    requires j < |select|
    ensures LitCount(select[j := level])
         == LitCount(select) - (if IsLit(select[j]) then 1 else 0) + (if IsLit(level) then 1 else 0)
  {
    if j > 0 {
      LitCountUpdate(select[1..], j - 1, level);
      assert select[j := level][1..] == select[1..][j - 1 := level];
    } else {
      assert select[j := level][1..] == select[1..];
    }
  }

  /** The select levels with digit i on and every other digit off. */
  function OnlyLit(i: nat): (select: seq<bool>)
    requires i < DigitCount
    ensures |select| == DigitCount
    ensures forall j | 0 <= j < DigitCount :: IsLit(select[j]) <==> j == i
  {
    OffIsOppositeOfOn(DigitActiveHigh);
    seq(DigitCount, j => SelectLevel(j == i, DigitActiveHigh))
  }

  /** The select levels with every digit off. */
  function AllOff(): (select: seq<bool>)
    ensures |select| == DigitCount && Dark(select)
  {
    seq(DigitCount, j => OffLevel)
  }

  /** Exactly one digit is lit when a dark row has one line switched on. */
  lemma OnlyLitFromDark(select: seq<bool>, i: nat)
    requires |select| == DigitCount && Dark(select) && i < DigitCount
    ensures select[i := SelectLevel(true, DigitActiveHigh)] == OnlyLit(i)
    ensures LitCount(OnlyLit(i)) == 1
  {
    DarkIffNoneLit(select);
    LitCountUpdate(select, i, SelectLevel(true, DigitActiveHigh));
  }

  // ---- The BCD bus ----

  /** Bit i of n: `(n >> i) & 1`. */
  function Bit(n: nat, i: nat): bool
  {
    (n / Radix.Pow(2, i)) % 2 == 1
  }

  /** The bus levels that put n on the decoder, line A (bit 0) first. */
  function BcdPattern(n: nat): (lines: seq<bool>)
    ensures |lines| == BusWidth
  {
    seq(BusWidth, i requires 0 <= i => Bit(n, i))
  }

  /** The lines as 0/1 digits, least significant first. */
  function BitDigits(lines: seq<bool>): (ds: seq<nat>)
    ensures |ds| == |lines| && Radix.AllBelow(ds, 2)
  {
    seq(|lines|, i requires 0 <= i < |lines| => if lines[i] then 1 else 0)
  }

  /** The number the decoder reads off the bus: lines weighted 1, 2, 4, 8. */
  function BcdValue(lines: seq<bool>): nat
  {
    Radix.Value(BitDigits(lines), 2)
  }

  /** All bus lines LOW: the state `clearBCD` leaves. */
  predicate AllLow(lines: seq<bool>)
  {
    forall i | 0 <= i < |lines| :: !lines[i]
  }

  lemma BitsAreDigits(n: nat)
    ensures BitDigits(BcdPattern(n)) == Radix.Digits(n, 2, BusWidth)
  {
    var ds := Radix.Digits(n, 2, BusWidth);
    forall i | 0 <= i < BusWidth ensures BitDigits(BcdPattern(n))[i] == ds[i] {
      Radix.DigitAt(n, 2, BusWidth, i);
    }
  }

  /** Reading the four lines back gives the value written, for every value a
      4-bit bus can hold (in particular every decimal digit). */
  lemma BcdRoundTrip(n: nat)
    requires n < 16
    ensures BcdValue(BcdPattern(n)) == n
  {
    BitsAreDigits(n);
    assert Radix.Pow(2, BusWidth) == 16;
    Radix.ValueOfDigitsExact(n, 2, BusWidth);
  }

  /** The other direction: every pattern on the four lines is the encoding of
      the value it is read as, so line i is HIGH exactly when bit i of that
      value is 1. */
  lemma BcdPatternOfValue(lines: seq<bool>)
    requires |lines| == BusWidth
    ensures BcdValue(lines) < 16
    ensures BcdPattern(BcdValue(lines)) == lines
  {
    var ds := BitDigits(lines);
    var v := BcdValue(lines);
    Radix.ValueBound(ds, 2);
    assert Radix.Pow(2, BusWidth) == 16;
    Radix.DigitsOfValue(ds, 2);
    BitsAreDigits(v);
    forall i | 0 <= i < BusWidth ensures BcdPattern(v)[i] == lines[i] {
      assert BitDigits(BcdPattern(v))[i] == ds[i];
    }
  }

  /** The cleared bus is the encoding of 0. */
  lemma ClearedBusIsZero(lines: seq<bool>)
    requires |lines| == BusWidth
    ensures AllLow(lines) <==> lines == BcdPattern(0)
  {
    forall i | 0 <= i < BusWidth ensures !BcdPattern(0)[i] {
      assert 0 / Radix.Pow(2, i) == 0;
    }
  }

  // ---- The record of pin writes ----

  datatype Kind =
    | BusWrite(line: nat, high: bool)        // digitalWrite to BcdPins[line]
    | SelectWrite(digit: nat, high: bool)    // digitalWrite to DigitPins[digit]
    | Dwell                                  // the hold time while a digit is lit

  /** One step of the pin history: what happened, and the levels of the bus
      lines and of the select lines right after it. */
  datatype Event = Event(kind: Kind, bus: seq<bool>, select: seq<bool>)

  /** The bus changed only while every digit was dark. Stated event by
      event from the end of the history; SafetyMeans gives the reading "for
      every event". */
  predicate BusWritesDark(t: seq<Event>)
  {
    t == [] || (BusWritesDark(t[..|t| - 1]) && (t[|t| - 1].kind.BusWrite? ==> Dark(t[|t| - 1].select)))
  }

  /** At no moment were two digits gated onto the bus together. */
  predicate NeverTwoLit(t: seq<Event>)
  {
    t == [] || (NeverTwoLit(t[..|t| - 1]) && LitCount(t[|t| - 1].select) <= 1)
  }

  /** The digits whose select line was driven to the lit level, in order. */
  function Enabled(t: seq<Event>): seq<nat>
  {
    if t == [] then []
    else
      var e := t[|t| - 1];
      Enabled(t[..|t| - 1]) + (if e.kind.SelectWrite? && IsLit(e.kind.high) then [e.kind.digit] else [])
  }

  /** The pin levels during each hold, in order. */
  function Dwells(t: seq<Event>): seq<Event>
  {
    if t == [] then []
    else
      var e := t[|t| - 1];
      Dwells(t[..|t| - 1]) + (if e.kind.Dwell? then [e] else [])
  }

  /** The two safety rules say what their names promise of every event. */
  lemma {:induction false} SafetyMeans(t: seq<Event>)
    ensures BusWritesDark(t) <==> forall e | e in t :: e.kind.BusWrite? ==> Dark(e.select)
    ensures NeverTwoLit(t) <==> forall e | e in t :: LitCount(e.select) <= 1
  {
    if t != [] {
      var t' := t[..|t| - 1];
      SafetyMeans(t');
      assert t == t' + [t[|t| - 1]];
    }
  }

  /** The safety rules and both projections of a history split at any point. */
  lemma {:induction false} HistoryAppend(a: seq<Event>, b: seq<Event>)
    ensures BusWritesDark(a + b) <==> BusWritesDark(a) && BusWritesDark(b)
    ensures NeverTwoLit(a + b) <==> NeverTwoLit(a) && NeverTwoLit(b)
    ensures Enabled(a + b) == Enabled(a) + Enabled(b)
    ensures Dwells(a + b) == Dwells(a) + Dwells(b)
  {
    if b == [] {
      assert a + b == a;
    } else {
      var b' := b[..|b| - 1];
      assert (a + b)[..|a + b| - 1] == a + b';
      assert (a + b)[|a + b| - 1] == b[|b| - 1];
      HistoryAppend(a, b');
    }
  }

  /** The safety rules and projections of a single event. */
  lemma SingleEvent(e: Event)
    ensures BusWritesDark([e]) <==> (e.kind.BusWrite? ==> Dark(e.select))
    ensures NeverTwoLit([e]) <==> LitCount(e.select) <= 1
    ensures Enabled([e]) == if e.kind.SelectWrite? && IsLit(e.kind.high) then [e.kind.digit] else []
    ensures Dwells([e]) == if e.kind.Dwell? then [e] else []
  {
    assert [e][..0] == [];
  }

  // ---- Histories of the driver's write loops ----

  /** The levels of a group of lines that started at `start` once
      levels[0], levels[1], ... have been written to its first lines. */
  function Overlay(start: seq<bool>, levels: seq<bool>): (now: seq<bool>)
    requires |levels| <= |start|
    ensures |now| == |start|
    ensures forall j | 0 <= j < |start| :: now[j] == if j < |levels| then levels[j] else start[j]
  {
    levels + start[|levels|..]
  }

  lemma OverlayStep(start: seq<bool>, levels: seq<bool>, k: nat)
    requires k < |levels| <= |start|
    ensures Overlay(start, levels[..k])[k := levels[k]] == Overlay(start, levels[..k + 1])
  {
  }

  /** The bus levels `clearBCD` leaves: every line LOW. */
  function Cleared(): (lines: seq<bool>)
    ensures |lines| == BusWidth && AllLow(lines)
  {
    seq(BusWidth, i => false)
  }

  /** The history of writing levels[k] to bus line k for k = 0, 1, ... in
      turn, from bus levels `start`, while the select lines stay at `select`. */
  function BusWrites(start: seq<bool>, levels: seq<bool>, select: seq<bool>): (t: seq<Event>)
    requires |levels| <= |start|
    ensures |t| == |levels|
    decreases |levels|
  {
    if levels == [] then []
    else
      var k := |levels| - 1;
      BusWrites(start, levels[..k], select) + [Event(BusWrite(k, levels[k]), Overlay(start, levels), select)]
  }

  lemma BusWritesStep(start: seq<bool>, levels: seq<bool>, select: seq<bool>, k: nat)
    requires k < |levels| <= |start|
    ensures BusWrites(start, levels[..k + 1], select)
         == BusWrites(start, levels[..k], select)
            + [Event(BusWrite(k, levels[k]), Overlay(start, levels[..k + 1]), select)]
  {
    assert levels[..k + 1][..k] == levels[..k];
  }

  /** Such a history writes line k with levels[k], in index order, touches no
      select line, and enables and holds nothing; it obeys both safety rules
      when the select lines it runs under do. */
  lemma {:induction false} BusWritesShape(start: seq<bool>, levels: seq<bool>, select: seq<bool>)
    requires |levels| <= |start|
    ensures forall k | 0 <= k < |levels| :: BusWrites(start, levels, select)[k].kind == BusWrite(k, levels[k])
    ensures Dark(select) ==> BusWritesDark(BusWrites(start, levels, select))
    ensures LitCount(select) <= 1 ==> NeverTwoLit(BusWrites(start, levels, select))
    ensures Enabled(BusWrites(start, levels, select)) == [] && Dwells(BusWrites(start, levels, select)) == []
  {
    if levels != [] {
      var k := |levels| - 1;
      var t, t' := BusWrites(start, levels, select), BusWrites(start, levels[..k], select);
      BusWritesShape(start, levels[..k], select);
      assert t[..k] == t';
    }
  }

  /** The history of `writeBCD(n)` for a digit n: the four lines cleared,
      then line k set to bit k of n. */
  function BcdWrites(start: seq<bool>, n: nat, select: seq<bool>): (t: seq<Event>)
    requires |start| == BusWidth
    ensures |t| == 2 * BusWidth
  {
    BusWrites(start, Cleared(), select) + BusWrites(Cleared(), BcdPattern(n), select)
  }

  /** The history of writing levels[k] to select line k for k = 0, 1, ... in
      turn, from select levels `start`, while the bus stays at `bus`. */
  function SelectWrites(bus: seq<bool>, start: seq<bool>, levels: seq<bool>): (t: seq<Event>)
    requires |levels| <= |start|
    ensures |t| == |levels|
    decreases |levels|
  {
    if levels == [] then []
    else
      var k := |levels| - 1;
      SelectWrites(bus, start, levels[..k]) + [Event(SelectWrite(k, levels[k]), bus, Overlay(start, levels))]
  }

  lemma SelectWritesStep(bus: seq<bool>, start: seq<bool>, levels: seq<bool>, k: nat)
    requires k < |levels| <= |start|
    ensures SelectWrites(bus, start, levels[..k + 1])
         == SelectWrites(bus, start, levels[..k])
            + [Event(SelectWrite(k, levels[k]), bus, Overlay(start, levels[..k + 1]))]
  {
    assert levels[..k + 1][..k] == levels[..k];
  }

  lemma DarkPrefix(levels: seq<bool>, k: nat)
    requires k <= |levels| && Dark(levels)
    ensures Dark(levels[..k])
  {
    forall j | 0 <= j < k ensures !IsLit(levels[..k][j]) {
      assert levels[..k][j] == levels[j];
    }
  }

  /** Switching lines off one after another never raises the number of lit
      digits. */
  lemma {:induction false} OverlayDarkLitCount(start: seq<bool>, levels: seq<bool>)
    requires |levels| <= |start| && Dark(levels)
    ensures LitCount(Overlay(start, levels)) <= LitCount(start)
  {
    if levels != [] {
      var k := |levels| - 1;
      var prev := Overlay(start, levels[..k]);
      DarkPrefix(levels, k);
      OverlayDarkLitCount(start, levels[..k]);
      OverlayStep(start, levels, k);
      assert levels[..k + 1] == levels;
      assert !IsLit(levels[k]);
      LitCountUpdate(prev, k, levels[k]);
    } else {
      assert Overlay(start, levels) == start;
    }
  }

  /** Such a history writes select line k with levels[k], in index order,
      writes no bus line and holds nothing. */
  lemma {:induction false} SelectWritesShape(bus: seq<bool>, start: seq<bool>, levels: seq<bool>)
    requires |levels| <= |start|
    ensures forall k | 0 <= k < |levels| :: SelectWrites(bus, start, levels)[k].kind == SelectWrite(k, levels[k])
    ensures BusWritesDark(SelectWrites(bus, start, levels))
    ensures Dwells(SelectWrites(bus, start, levels)) == []
  {
    if levels != [] {
      var k := |levels| - 1;
      var t, t' := SelectWrites(bus, start, levels), SelectWrites(bus, start, levels[..k]);
      SelectWritesShape(bus, start, levels[..k]);
      assert t[..k] == t';
    }
  }

  /** A history that only switches digits off never lights more digits than
      were lit at its start, and enables nothing. */
  lemma {:induction false} SelectWritesDark(bus: seq<bool>, start: seq<bool>, levels: seq<bool>)
    requires |levels| <= |start| && Dark(levels)
    ensures LitCount(start) <= 1 ==> NeverTwoLit(SelectWrites(bus, start, levels))
    ensures Enabled(SelectWrites(bus, start, levels)) == []
  {
    if levels != [] {
      var k := |levels| - 1;
      var t, t' := SelectWrites(bus, start, levels), SelectWrites(bus, start, levels[..k]);
      DarkPrefix(levels, k);
      SelectWritesDark(bus, start, levels[..k]);
      OverlayDarkLitCount(start, levels);
      assert t[..k] == t';
    }
  }

  /** What a viewer sees during the six holds of one display pass: in hold i,
      digit i alone is lit and the bus carries ds[i]. */
  function ScanFrames(ds: seq<nat>): (frames: seq<Event>)
    requires |ds| == DigitCount
    ensures |frames| == DigitCount
  {
    seq(DigitCount, i requires 0 <= i < DigitCount => Event(Dwell, BcdPattern(ds[i]), OnlyLit(i)))
  }

  /** In every frame of a pass over decimal digits exactly one digit is lit,
      the i-th, and the decoder reads ds[i] off the bus. */
  lemma ScanFramesShowDigits(ds: seq<nat>)
    requires |ds| == DigitCount && Radix.AllBelow(ds, 10)
    ensures forall i | 0 <= i < DigitCount ::
              && ScanFrames(ds)[i].kind.Dwell?
              && LitCount(ScanFrames(ds)[i].select) == 1
              && (forall j | 0 <= j < DigitCount :: IsLit(ScanFrames(ds)[i].select[j]) <==> j == i)
              && BcdValue(ScanFrames(ds)[i].bus) == ds[i]
  {
    forall i | 0 <= i < DigitCount
      ensures LitCount(OnlyLit(i)) == 1 && BcdValue(BcdPattern(ds[i])) == ds[i]
    {
      OnlyLitFromDark(AllOff(), i);
      BcdRoundTrip(ds[i]);
    }
  }
}
