/** The display driver of src/NixiePrint.h. The GPIO hardware is modelled as
    plain state: the levels of the four BCD bus lines and of the six digit-select
    lines, plus a ghost history of every pin write. `digitalWrite` becomes an
    assignment to one of the two arrays and one appended history event;
    `pinMode` and `Serial.printf` have no effect on levels and are not modelled,
    and `delayMicroseconds` becomes a Dwell event. */
module Display {
  import Radix
  import opened Pins

  class NixiePrint {
    /** bcd[i] is the level of BcdPins[i]. */
    const bcd: array<bool>
    /** dig[i] is the level of DigitPins[i]. */
    const dig: array<bool>
    /** Every pin write so far, each with the levels right after it. */
    ghost var trace: seq<Event>

    ghost predicate Valid()
    {
      bcd.Length == BusWidth && dig.Length == DigitCount && bcd != dig
    }

    /** The pin levels before `setup` are whatever the hardware powered up
        with; nothing is assumed about them. */
    constructor ()
      ensures Valid() && fresh(bcd) && fresh(dig) && trace == []
    {
      bcd := new bool[BusWidth];
      dig := new bool[DigitCount];
      trace := [];
    }

    /** `digitalWrite(BCD_PINS[line], high)`. */
    method WriteBusLine(line: nat, high: bool) returns (ghost log: seq<Event>)
      requires Valid() && line < BusWidth
      modifies this, bcd
      ensures bcd[..] == old(bcd[..])[line := high] && dig[..] == old(dig[..])
      ensures log == [Event(BusWrite(line, high), bcd[..], dig[..])]
      ensures trace == old(trace) + log
    {
      bcd[line] := high;
      log := [Event(BusWrite(line, high), bcd[..], dig[..])];
      trace := trace + log;
    }

    /** `writeDigitRaw`: drive select line idx to the level that means `on`
        under the configured polarity. */
    method WriteDigitRaw(idx: nat, on: bool) returns (ghost log: seq<Event>)
      requires Valid() && idx < DigitCount
      modifies this, dig
      ensures dig[..] == old(dig[..])[idx := SelectLevel(on, DigitActiveHigh)]
      ensures bcd[..] == old(bcd[..])
      ensures log == [Event(SelectWrite(idx, SelectLevel(on, DigitActiveHigh)), bcd[..], dig[..])]
      ensures trace == old(trace) + log
    {
      var level := SelectLevel(on, DigitActiveHigh);
      dig[idx] := level;
      log := [Event(SelectWrite(idx, level), bcd[..], dig[..])];
      trace := trace + log;
    }

    /** `enableDigit`: switch digit idx on; an index past the last digit is
        ignored. */
    method EnableDigit(idx: uint8) returns (ghost log: seq<Event>)
      requires Valid()
      modifies this, dig
      ensures bcd[..] == old(bcd[..])
      ensures idx as nat >= DigitCount ==> dig[..] == old(dig[..]) && log == []
      ensures idx as nat < DigitCount ==>
                && dig[..] == old(dig[..])[idx as nat := SelectLevel(true, DigitActiveHigh)]
                && log == [Event(SelectWrite(idx as nat, SelectLevel(true, DigitActiveHigh)), bcd[..], dig[..])]
      ensures trace == old(trace) + log
    {
      if idx as nat >= DigitCount {
        log := [];
        return;
      }
      log := WriteDigitRaw(idx as nat, true);
    }

    /** `disableDigit`: switch digit idx off; an index past the last digit is
        ignored. */
    method DisableDigit(idx: uint8) returns (ghost log: seq<Event>)
      requires Valid()
      modifies this, dig
      ensures bcd[..] == old(bcd[..])
      ensures idx as nat >= DigitCount ==> dig[..] == old(dig[..]) && log == []
      ensures idx as nat < DigitCount ==>
                && dig[..] == old(dig[..])[idx as nat := OffLevel]
                && log == [Event(SelectWrite(idx as nat, OffLevel), bcd[..], dig[..])]
      ensures trace == old(trace) + log
    {
      if idx as nat >= DigitCount {
        log := [];
        return;
      }
      log := WriteDigitRaw(idx as nat, false);
    }

    /** `disableAllDigits`: switch every digit off, in index order. The end
        state does not depend on the start state. */
    method DisableAllDigits() returns (ghost log: seq<Event>)
      requires Valid()
      modifies this, dig
      ensures dig[..] == AllOff() && bcd[..] == old(bcd[..])
      ensures log == SelectWrites(bcd[..], old(dig[..]), AllOff())
      ensures trace == old(trace) + log
    {
      ghost var offs := AllOff();
      log := [];
      for i := 0 to DigitCount
        invariant dig[..] == Overlay(old(dig[..]), offs[..i])
        invariant bcd[..] == old(bcd[..])
        invariant log == SelectWrites(bcd[..], old(dig[..]), offs[..i])
        invariant trace == old(trace) + log
      {
        var step := WriteDigitRaw(i, false);
        OverlayStep(old(dig[..]), offs, i);
        SelectWritesStep(bcd[..], old(dig[..]), offs, i);
        AppendAssoc(old(trace), log, step);
        log := log + step;
      }
      assert offs[..DigitCount] == offs;
    }

    /** `clearBCD`: drive the four bus lines LOW, line A first. Like
        DisableAllDigits its end state does not depend on the start state. */
    method ClearBcd() returns (ghost log: seq<Event>)
      requires Valid()
      modifies this, bcd
      ensures bcd[..] == Cleared() && dig[..] == old(dig[..])
      ensures log == BusWrites(old(bcd[..]), Cleared(), dig[..])
      ensures trace == old(trace) + log
    {
      ghost var lows := Cleared();
      log := [];
      for i := 0 to BusWidth
        invariant bcd[..] == Overlay(old(bcd[..]), lows[..i])
        invariant dig[..] == old(dig[..])
        invariant log == BusWrites(old(bcd[..]), lows[..i], dig[..])
        invariant trace == old(trace) + log
      {
        var step := WriteBusLine(i, false);
        OverlayStep(old(bcd[..]), lows, i);
        BusWritesStep(old(bcd[..]), lows, dig[..], i);
        AppendAssoc(old(trace), log, step);
        log := log + step;
      }
      assert lows[..BusWidth] == lows;
    }

    /** `writeBCD`: put a decimal digit on the bus, line A first, after first
        clearing all four lines. A value above 9 is ignored. */
    method WriteBcd(n: uint8) returns (ghost log: seq<Event>)
      requires Valid()
      modifies this, bcd
      ensures dig[..] == old(dig[..])
      ensures n > 9 ==> bcd[..] == old(bcd[..]) && log == []
      ensures n <= 9 ==> bcd[..] == BcdPattern(n as nat) && log == BcdWrites(old(bcd[..]), n as nat, dig[..])
      ensures trace == old(trace) + log
    {
      if n > 9 {
        log := [];
        return;
      }
      var clear := ClearBcd();
      ghost var bits := BcdPattern(n as nat);
      ghost var written := [];
      for i := 0 to BusWidth
        invariant bcd[..] == Overlay(Cleared(), bits[..i])
        invariant dig[..] == old(dig[..])
        invariant written == BusWrites(Cleared(), bits[..i], dig[..])
        invariant trace == old(trace) + clear + written
      {
        var step := WriteBusLine(i, Bit(n as nat, i));
        OverlayStep(Cleared(), bits, i);
        BusWritesStep(Cleared(), bits, dig[..], i);
        AppendAssoc(old(trace) + clear, written, step);
        written := written + step;
      }
      assert bits[..BusWidth] == bits;
      AppendAssoc(old(trace), clear, written);
      log := clear + written;
    }

    /** `setup`: the bus lines LOW, then every digit off. Configuring the pins
        as outputs does not change a level. No digit is switched on. */
    method Setup() returns (ghost log: seq<Event>)
      requires Valid()
      modifies this, bcd, dig
      ensures bcd[..] == Cleared() && dig[..] == AllOff()
      ensures log == BusWrites(old(bcd[..]), Cleared(), old(dig[..]))
                     + SelectWrites(Cleared(), old(dig[..]), AllOff())
      ensures trace == old(trace) + log
      ensures Enabled(log) == [] && Dwells(log) == []
    {
      var clear := ClearBcd();
      var off := DisableAllDigits();
      AppendAssoc(old(trace), clear, off);
      BusWritesShape(old(bcd[..]), Cleared(), old(dig[..]));
      SelectWritesShape(Cleared(), old(dig[..]), AllOff());
      SelectWritesDark(Cleared(), old(dig[..]), AllOff());
      HistoryAppend(clear, off);
      log := clear + off;
    }

    /** The first loop of `print`: the six lowest decimal digits of n, least
        significant first, by repeated `% 10` and `/= 10`. */
    static method SplitDigits(n: uint32) returns (digits: array<uint8>)
      ensures fresh(digits) && digits.Length == DigitCount
      ensures forall i | 0 <= i < DigitCount :: digits[i] as nat == Radix.Digits(n as nat, 10, DigitCount)[i]
    {
      digits := new uint8[DigitCount];
      ghost var ds := Radix.Digits(n as nat, 10, DigitCount);
      var m := n;
      for i := 0 to DigitCount
        invariant forall k | 0 <= k < i :: digits[k] as nat == ds[k]
        invariant ds[i..] == Radix.Digits(m as nat, 10, DigitCount - i)
      {
        assert ds[i + 1..] == ds[i..][1..];
        digits[i] := (m % 10) as uint8;
        m := m / 10;
      }
    }

    /** One round of `print`'s display loop: all digits off, d on the bus,
        digit i on, the hold (`delayMicroseconds`), all digits off again. */
    method ShowDigit(i: nat, d: uint8) returns (ghost log: seq<Event>)
      requires Valid() && i < DigitCount && d <= 9
      modifies this, bcd, dig
      ensures dig[..] == AllOff() && bcd[..] == BcdPattern(d as nat)
      ensures trace == old(trace) + log
      ensures BusWritesDark(log)
      ensures old(LitCount(dig[..])) <= 1 ==> NeverTwoLit(log)
      ensures Enabled(log) == [i]
      ensures Dwells(log) == [Event(Dwell, BcdPattern(d as nat), OnlyLit(i))]
    {
      PassSafe(bcd[..], dig[..], i, d as nat);
      ghost var start := trace;
      var off1 := DisableAllDigits();
      var bus := WriteBcd(d);
      AppendAssoc(start, off1, bus);
      OnlyLitFromDark(dig[..], i);
      var on := EnableDigit(i as uint8);
      AppendAssoc(start, off1 + bus, on);
      ghost var hold := [Event(Dwell, bcd[..], dig[..])];
      trace := trace + hold;
      AppendAssoc(start, off1 + bus + on, hold);
      var off2 := DisableAllDigits();
      AppendAssoc(start, off1 + bus + on + hold, off2);
      log := off1 + bus + on + hold + off2;
    }

    /** `print`: show n on the six digits once. For each digit in index order:
        all digits off, its BCD value on the bus, that digit on, a hold, all
        digits off again; finally the bus is cleared. The bus changes only
        while every digit is dark, two digits are never lit together (given
        at most one was lit at the start), the digits are enabled in index
        order, and hold i shows digit i of n alone. */
    method Print(n: uint32) returns (ghost log: seq<Event>)
      requires Valid()
      modifies this, bcd, dig
      ensures trace == old(trace) + log
      ensures dig[..] == AllOff() && bcd[..] == Cleared()
      ensures BusWritesDark(log)
      ensures old(LitCount(dig[..])) <= 1 ==> NeverTwoLit(log)
      ensures Enabled(log) == [0, 1, 2, 3, 4, 5]
      ensures Dwells(log) == ScanFrames(Radix.Digits(n as nat, 10, DigitCount))
    {
      var digits := SplitDigits(n);
      ghost var frames := ScanFrames(Radix.Digits(n as nat, 10, DigitCount));
      ghost var order: seq<nat> := [0, 1, 2, 3, 4, 5];
      ghost var lit0 := LitCount(dig[..]);
      DarkIffNoneLit(AllOff());
      log := [];
      for i := 0 to DigitCount
        invariant trace == old(trace) + log
        invariant i == 0 ==> LitCount(dig[..]) == lit0
        invariant i > 0 ==> dig[..] == AllOff()
        invariant BusWritesDark(log)
        invariant lit0 <= 1 ==> NeverTwoLit(log)
        invariant Enabled(log) == order[..i]
        invariant Dwells(log) == frames[..i]
        invariant forall k | 0 <= k < DigitCount :: digits[k] as nat == Radix.Digits(n as nat, 10, DigitCount)[k]
      {
        var pass := ShowDigit(i, digits[i]);
        AppendAssoc(old(trace), log, pass);
        ScanStep(log, pass, i, lit0, order, frames);
        log := log + pass;
      }
      ghost var bus := bcd[..];
      var clear := ClearBcd();
      BusWritesSafe(bus, Cleared());
      AppendAssoc(old(trace), log, clear);
      HistoryAppend(log, clear);
      log := log + clear;
    }
  }

  /** The loop of `print` keeps its invariant: a history that has shown
      digits 0 .. i-1 safely, followed by a safe round for digit i, has shown
      digits 0 .. i safely. */
  lemma ScanStep(log: seq<Event>, pass: seq<Event>, i: nat, lit: nat, order: seq<nat>, frames: seq<Event>)
    requires i < |order| && i < |frames|
    requires BusWritesDark(log) && (lit <= 1 ==> NeverTwoLit(log))
    requires Enabled(log) == order[..i] && Dwells(log) == frames[..i]
    requires BusWritesDark(pass) && (lit <= 1 ==> NeverTwoLit(pass))
    requires Enabled(pass) == [order[i]] && Dwells(pass) == [frames[i]]
    ensures BusWritesDark(log + pass) && (lit <= 1 ==> NeverTwoLit(log + pass))
    ensures Enabled(log + pass) == order[..i + 1] && Dwells(log + pass) == frames[..i + 1]
  {
    HistoryAppend(log, pass);
    PrefixStep(order, i);
    PrefixStep(frames, i);
  }

  /** The six digits `print` splits n into: digit i is (n / 10^i) % 10, and
      together they denote n modulo 1000000, so higher digits are dropped and
      a number below 1000000 is split exactly. */
  lemma SixDigits(n: nat)
    ensures forall i | 0 <= i < DigitCount :: Radix.Digits(n, 10, DigitCount)[i] == (n / Radix.Pow(10, i)) % 10
    ensures Radix.Value(Radix.Digits(n, 10, DigitCount), 10) == n % 1000000
    ensures n < 1000000 ==> Radix.Value(Radix.Digits(n, 10, DigitCount), 10) == n
  {
    forall i | 0 <= i < DigitCount
      ensures Radix.Digits(n, 10, DigitCount)[i] == (n / Radix.Pow(10, i)) % 10
    {
      Radix.DigitAt(n, 10, DigitCount, i);
    }
    assert Radix.Pow(10, DigitCount) == 1000000;
    Radix.ValueOfDigits(n, 10, DigitCount);
    if n < 1000000 {
      Radix.DivModUnique(n, 1000000, 0, n);
    }
  }

  /** What a pass of `print` shows: in hold i exactly one digit is lit, the
      i-th, and the decoder reads decimal digit i of n off the bus. */
  lemma PrintShowsDigits(n: nat)
    ensures forall i | 0 <= i < DigitCount ::
              && LitCount(ScanFrames(Radix.Digits(n, 10, DigitCount))[i].select) == 1
              && IsLit(ScanFrames(Radix.Digits(n, 10, DigitCount))[i].select[i])
              && BcdValue(ScanFrames(Radix.Digits(n, 10, DigitCount))[i].bus) == (n / Radix.Pow(10, i)) % 10
  {
    SixDigits(n);
    ScanFramesShowDigits(Radix.Digits(n, 10, DigitCount));
  }

  /** The pin history of one round of `print`'s display loop for digit i
      showing d, from bus levels `bus` and select levels `select`. */
  function Pass(bus: seq<bool>, select: seq<bool>, i: nat, d: nat): seq<Event>
    requires |bus| == BusWidth && |select| == DigitCount && i < DigitCount
  {
    SelectWrites(bus, select, AllOff())
    + BcdWrites(bus, d, AllOff())
    + [Event(SelectWrite(i, SelectLevel(true, DigitActiveHigh)), BcdPattern(d), OnlyLit(i))]
    + [Event(Dwell, BcdPattern(d), OnlyLit(i))]
    + SelectWrites(BcdPattern(d), OnlyLit(i), AllOff())
  }

  /** Switching every digit off writes no bus line, never lights two digits
      when at most one was lit, and enables and holds nothing. */
  lemma OffSafe(bus: seq<bool>, select: seq<bool>)
    requires |select| == DigitCount
    ensures BusWritesDark(SelectWrites(bus, select, AllOff()))
    ensures LitCount(select) <= 1 ==> NeverTwoLit(SelectWrites(bus, select, AllOff()))
    ensures Enabled(SelectWrites(bus, select, AllOff())) == [] && Dwells(SelectWrites(bus, select, AllOff())) == []
  {
    SelectWritesShape(bus, select, AllOff());
    SelectWritesDark(bus, select, AllOff());
  }

  /** Writing the bus while every digit is dark keeps every digit dark, and
      enables and holds nothing. */
  lemma BusWritesSafe(bus: seq<bool>, levels: seq<bool>)
    requires |levels| <= |bus|
    ensures BusWritesDark(BusWrites(bus, levels, AllOff())) && NeverTwoLit(BusWrites(bus, levels, AllOff()))
    ensures Enabled(BusWrites(bus, levels, AllOff())) == [] && Dwells(BusWrites(bus, levels, AllOff())) == []
  {
    DarkIffNoneLit(AllOff());
    BusWritesShape(bus, levels, AllOff());
  }

  /** The same for a whole `writeBCD`. */
  lemma BcdWritesSafe(bus: seq<bool>, d: nat)
    requires |bus| == BusWidth
    ensures BusWritesDark(BcdWrites(bus, d, AllOff())) && NeverTwoLit(BcdWrites(bus, d, AllOff()))
    ensures Enabled(BcdWrites(bus, d, AllOff())) == [] && Dwells(BcdWrites(bus, d, AllOff())) == []
  {
    BusWritesSafe(bus, Cleared());
    BusWritesSafe(Cleared(), BcdPattern(d));
    HistoryAppend(BusWrites(bus, Cleared(), AllOff()), BusWrites(Cleared(), BcdPattern(d), AllOff()));
  }

  /** The first half of a round (all digits off, then `writeBCD`) writes the
      bus only in the dark, lights no second digit, and enables and holds
      nothing. */
  lemma DarkPhaseSafe(bus: seq<bool>, select: seq<bool>, d: nat)
    requires |bus| == BusWidth && |select| == DigitCount
    ensures BusWritesDark(SelectWrites(bus, select, AllOff()) + BcdWrites(bus, d, AllOff()))
    ensures LitCount(select) <= 1 ==> NeverTwoLit(SelectWrites(bus, select, AllOff()) + BcdWrites(bus, d, AllOff()))
    ensures Enabled(SelectWrites(bus, select, AllOff()) + BcdWrites(bus, d, AllOff())) == []
    ensures Dwells(SelectWrites(bus, select, AllOff()) + BcdWrites(bus, d, AllOff())) == []
  {
    OffSafe(bus, select);
    BcdWritesSafe(bus, d);
    HistoryAppend(SelectWrites(bus, select, AllOff()), BcdWrites(bus, d, AllOff()));
  }

  /** The second half of a round (digit i on, the hold, all digits off)
      writes no bus line, lights only digit i, enables it, and holds once. */
  lemma LitPhaseSafe(before: seq<Event>, i: nat, d: nat, lit: nat)
    requires i < DigitCount
    requires BusWritesDark(before) && (lit <= 1 ==> NeverTwoLit(before))
    requires Enabled(before) == [] && Dwells(before) == []
    ensures var t := before
                     + [Event(SelectWrite(i, SelectLevel(true, DigitActiveHigh)), BcdPattern(d), OnlyLit(i))]
                     + [Event(Dwell, BcdPattern(d), OnlyLit(i))]
                     + SelectWrites(BcdPattern(d), OnlyLit(i), AllOff());
            && BusWritesDark(t) && (lit <= 1 ==> NeverTwoLit(t))
            && Enabled(t) == [i] && Dwells(t) == [Event(Dwell, BcdPattern(d), OnlyLit(i))]
  {
    var on := Event(SelectWrite(i, SelectLevel(true, DigitActiveHigh)), BcdPattern(d), OnlyLit(i));
    var hold := Event(Dwell, BcdPattern(d), OnlyLit(i));
    var off := SelectWrites(BcdPattern(d), OnlyLit(i), AllOff());
    OnlyLitFromDark(AllOff(), i);
    SingleEvent(on);
    SingleEvent(hold);
    OffSafe(BcdPattern(d), OnlyLit(i));
    HistoryAppend(before, [on]);
    HistoryAppend(before + [on], [hold]);
    HistoryAppend(before + [on] + [hold], off);
  }

  /** One round writes the bus only while every digit is dark, never lights
      two digits when it starts with at most one lit, enables exactly digit
      i, and holds once, with digit i alone lit and d on the bus. */
  lemma PassSafe(bus: seq<bool>, select: seq<bool>, i: nat, d: nat)
    requires |bus| == BusWidth && |select| == DigitCount && i < DigitCount
    ensures BusWritesDark(Pass(bus, select, i, d))
    ensures LitCount(select) <= 1 ==> NeverTwoLit(Pass(bus, select, i, d))
    ensures Enabled(Pass(bus, select, i, d)) == [i]
    ensures Dwells(Pass(bus, select, i, d)) == [Event(Dwell, BcdPattern(d), OnlyLit(i))]
  {
    DarkPhaseSafe(bus, select, d);
    LitPhaseSafe(SelectWrites(bus, select, AllOff()) + BcdWrites(bus, d, AllOff()), i, d, LitCount(select));
  }

  lemma PrefixStep<T>(s: seq<T>, i: nat)
    requires i < |s|
    ensures s[..i + 1] == s[..i] + [s[i]]
  {
  }

  lemma AppendAssoc<T>(a: seq<T>, b: seq<T>, c: seq<T>)
    ensures (a + b) + c == a + (b + c)
  {
  }
}
