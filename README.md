# Nixie display driver — a Dafny model

This project models the display driver of a six-digit nixie clock, the class
`NixiePrint` in `src/NixiePrint.h`. The driver shows a number on six nixie
tubes that share one 4-line BCD bus feeding a BCD-to-decimal decoder. Each tube
has its own digit-select line. `print(n)` splits `n` into six decimal digits,
units first, and multiplexes them: for each digit in turn it switches every
digit off, puts the digit's BCD code on the bus, switches that one digit on,
holds, and switches every digit off again. At the end it clears the bus.

The hardware is modelled as plain state in the class `Display.NixiePrint`:
- `bcd` holds the levels of the four bus lines (`true` is HIGH).
- `dig` holds the levels of the six select lines.
- A ghost `trace` records every pin write, together with the levels of both
  groups right after it.

Each `digitalWrite` is an assignment to one array entry plus one appended
event. The hold (`delayMicroseconds`) is a `Dwell` event. Over this history
the model states and proves the driver's safety rules:
- the bus is written only while every digit is dark;
- two digits are never lit at once;
- the digits are enabled in index order;
- hold i shows digit i of `n` and nothing else.

Files:
- `Radix.dfy` (module `Radix`): digit decomposition in base b, least
  significant digit first. It is used with base 10 for `print`'s digit split
  and with base 2 for the BCD bits.
- `Pins.dfy` (module `Pins`):
  - the pin tables, the select-line polarity and the BCD code;
  - the pin-write history and its safety predicates;
  - closed-form histories of the driver's write loops, with the lemmas about
    them.
- `NixiePrint.dfy` (module `Display`): the class, one method per member
  function of the C++ class, and the lemmas that assemble one pass of `print`.

## Model

| member | source | states |
|---|---|---|
| Radix.Digits | src/NixiePrint.h:20-24 | The k digits produced by k rounds of `% b` and `/ b`: there are exactly k of them and each is below b. |
| Radix.ValueOfDigits | src/NixiePrint.h:20-24 | The digits denote n modulo b^k: the digits above position k are dropped. |
| Radix.ValueOfDigitsExact | src/NixiePrint.h:20-24 | A number below b^k is recovered exactly from its k digits. |
| Radix.DigitAt | src/NixiePrint.h:20-24 | Digit i equals (n / b^i) % b, a closed form of the repeated division. |
| Radix.DigitsOfValue | src/NixiePrint.h:20-24 | The reverse round trip: splitting the value of a digit sequence (all digits below b) gives the sequence back. |
| Radix.ValueBound | src/NixiePrint.h:20-24 | A k-digit sequence denotes a number below b^k. |
| Display.SixDigits | src/NixiePrint.h:20-24 | `print`'s six digits: digit i is (n / 10^i) % 10, the digits denote n % 1000000, and a number below 1000000 is split exactly. |
| Display.NixiePrint.SplitDigits | src/NixiePrint.h:20-24 | The first loop of `print` fills a fresh six-entry array with the six lowest decimal digits of n, units first. |
| Pins.PinTablesDistinct | src/NixiePrint.h:46-47 | The ten GPIO numbers in the two tables are pairwise distinct, so each table entry names its own line. |
| Pins.SelectLevel | src/NixiePrint.h:50-52 | The level written for `on` under a given polarity is HIGH exactly when `on` equals `activeHigh` (`on ^ !DIGIT_ACTIVE_HIGH`). |
| Pins.OffIsOppositeOfOn | src/NixiePrint.h:45-52 | For either polarity, the "off" level is the opposite of the "on" level. |
| Pins.OnlyLitFromDark | src/NixiePrint.h:28-31 | Switching digit i on in a dark row lights digit i alone: exactly one digit is lit. |
| Pins.BcdRoundTrip | src/NixiePrint.h:79-82 | Reading the four lines back, weighted 1, 2, 4, 8, gives the value written, for every value below 16. |
| Pins.BcdPatternOfValue | src/NixiePrint.h:79-82 | Every pattern on the four lines encodes the value it reads as (a value below 16): line i is HIGH exactly when bit i of that value is 1. |
| Pins.ClearedBusIsZero | src/NixiePrint.h:68-70 | A bus with every line LOW is exactly the encoding of 0. |
| Pins.SafetyMeans | src/NixiePrint.h:26-37 | The history predicates mean what their names say, in both directions: every bus write happened with all digits dark, and every event has at most one digit lit. |
| Pins.BusWritesShape | src/NixiePrint.h:68-70 | A run of bus writes writes line k in index order, touches no select line, enables and holds nothing, and obeys both safety rules when the select lines it runs under do. |
| Pins.SelectWritesShape | src/NixiePrint.h:64-66 | A run of select writes writes line k in index order, writes no bus line and holds nothing. |
| Pins.SelectWritesDark | src/NixiePrint.h:64-66 | Switching digits off one after another never raises the number of lit digits and enables no digit. |
| Pins.ScanFramesShowDigits | src/NixiePrint.h:26-37 | In each of the six holds of a pass over decimal digits, only digit i is lit, and the decoder reads ds[i] off the bus. |
| Display.NixiePrint.constructor | src/NixiePrint.h:3 | A driver over fresh pin arrays with an empty history; nothing is assumed about the power-up levels. |
| Display.NixiePrint.WriteBusLine | src/NixiePrint.h:69 | `digitalWrite` to one bus line: only that entry of `bcd` changes, and exactly one event is appended. |
| Display.NixiePrint.WriteDigitRaw | src/NixiePrint.h:50-52 | Select line idx takes the polarity-mapped level; no other pin changes; exactly one event is appended. |
| Display.NixiePrint.EnableDigit | src/NixiePrint.h:54-57 | An index of 6 or more changes nothing and writes nothing; otherwise only select line idx changes, to the "on" level. |
| Display.NixiePrint.DisableDigit | src/NixiePrint.h:59-62 | An index of 6 or more changes nothing and writes nothing; otherwise only select line idx changes, to the "off" level. |
| Display.NixiePrint.DisableAllDigits | src/NixiePrint.h:64-66 | Every select line ends "off" whatever its start (so a second call changes nothing). The bus is untouched, and the history is the six select writes in index order. |
| Display.NixiePrint.ClearBcd | src/NixiePrint.h:68-70 | Every bus line ends LOW whatever its start. The select lines are untouched, and the history is the four LOW writes in line order. |
| Display.NixiePrint.WriteBcd | src/NixiePrint.h:73-83 | A value above 9 changes nothing. Otherwise the bus ends as the encoding of n, after the four lines are first cleared and then each line k is set to bit k; the select lines are untouched. |
| Display.NixiePrint.Setup | src/NixiePrint.h:5-16 | Afterwards the bus is all LOW and every digit is off. The history is the bus clear followed by the six "off" writes, and no digit is enabled. |
| Display.OffSafe | src/NixiePrint.h:64-66 | `disableAllDigits` writes no bus line, never lights two digits when at most one was lit, and enables and holds nothing. |
| Display.BusWritesSafe | src/NixiePrint.h:68-70 | Bus writes made while every digit is dark keep both safety rules and enable and hold nothing. |
| Display.BcdWritesSafe | src/NixiePrint.h:73-83 | The same for a whole `writeBCD` made while every digit is dark. |
| Display.DarkPhaseSafe | src/NixiePrint.h:28-29 | The first half of a round (all digits off, then `writeBCD`) writes the bus only in the dark, lights no second digit, and enables and holds nothing. |
| Display.LitPhaseSafe | src/NixiePrint.h:31-36 | The second half of a round (the digit on, the hold, all off) writes no bus line, lights only that digit, enables it once and holds once. |
| Display.PassSafe | src/NixiePrint.h:26-37 | One round for digit i: bus writes only in the dark; at most one digit lit if at most one was lit before; digit i is the only one enabled; one hold, with digit i alone lit and d on the bus. |
| Display.NixiePrint.ShowDigit | src/NixiePrint.h:28-36 | One pass of `print`'s display loop ends with all digits off and d on the bus, and its history has the properties of PassSafe. |
| Display.ScanStep | src/NixiePrint.h:26-37 | The display loop's invariant is kept: a safe prefix showing digits 0..i-1, followed by a safe round for digit i, shows digits 0..i. |
| Display.NixiePrint.Print | src/NixiePrint.h:18-41 | Print ends with every digit off and the bus all LOW. Its history writes the bus only in the dark, never lights two digits (given at most one was lit on entry), enables digits 0..5 in order, each once, and has one hold per digit, in which that digit alone is lit and shows its own decimal digit of n. |
| Display.PrintShowsDigits | src/NixiePrint.h:26-33 | In hold i of `print(n)`, exactly digit i is lit and the decoder reads (n / 10^i) % 10 off the bus. |

## Left out

- The driver has only the blocking `print` pass. There is no tick-driven scan, no timing configuration and no persistent digit buffer. The blank bus state is all LOW (`clearBCD`, src/NixiePrint.h:68-70).
- `pinMode` and `Serial.printf` in `src/NixiePrint.h` have no effect on pin levels and are not modelled.
- `delayMicroseconds(1500)` is a `Dwell` event in the history, with no duration. Real time, propagation delay and ghosting physics are not modelled.
- `src/ntp.h` is not part of this model: Wi-Fi, SNTP and RTC I/O.
- `src/main.cpp` is not part of this model: template code and a blocking Wi-Fi wait.
- Pin state is kept per table position (`bcd[i]` is `BCD_PINS[i]`, `dig[i]` is `DIGIT_PINS[i]`), not per GPIO number. Pins.PinTablesDistinct shows that no GPIO number is shared, so the two views agree.
- `print`'s loop body is the separate method Display.NixiePrint.ShowDigit, and its first loop is Display.NixiePrint.SplitDigits. Together they make the same pin writes in the same order as the inline code.
- Display.NixiePrint.Print: "never two digits lit" is promised only when at most one digit is lit on entry. A caller that has left several digits on (for example before `setup`) sees them switched off one by one during the first `disableAllDigits`. After `setup` or any `print` no digit is lit, so the condition holds for every later call.
- Display.NixiePrint.Print: the history records, for each enable write, which digit is enabled, but the bus check is stated on the hold that follows, not on the enable write itself. The hold has the same levels.
- Display.NixiePrint.Setup: the two safety rules (bus written only in the dark, never two digits lit) are claimed for `print` only. `setup` drives the bus LOW (src/NixiePrint.h:7-10) before it switches the digits off (src/NixiePrint.h:12-15), so a digit lit at power-up is still lit while the bus changes.
- Display.NixiePrint.WriteDigitRaw: an index of 6 or more is excluded by its precondition. The C++ `writeDigitRaw` has no guard and would read past the end of `DIGIT_PINS` (src/NixiePrint.h:50-52), which is undefined behaviour. Every caller keeps the index below 6 (src/NixiePrint.h:14, 56, 61, 65), so the model never needs that case.
- `uint8_t` and `uint32_t` arithmetic never wraps here (a remainder by 10 and a quotient by 10 of a 32-bit value), so no wrap-around is modelled.
