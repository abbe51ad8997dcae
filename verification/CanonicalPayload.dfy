/** The canonical string of a schedule payload, printed twice: by the server with templates and
    joins (src/services/schedulePayload.js) and by the firmware with appends, numbers read as a
    32-bit `long` and a 16-byte number buffer (firmware/src/canonical.h). The two must agree byte
    for byte, and different payloads must have different strings. */
module CanonicalPayload {

  datatype Relay = Relay(no: int, boot: string)
  datatype Event = Event(sid: int, relay: int, day: int, time: string, action: string)
  datatype Once = Once(sid: int, relay: int, date: string, time: string, action: string)
  datatype Payload = Payload(version: int, tz: string, relays: seq<Relay>, events: seq<Event>, once: seq<Once>)

  // ---- Numbers ----

  function Digit(d: int): char
    requires 0 <= d < 10
  {
    '0' + d as char
  }

  function DecimalNat(n: nat): (s: string)
    ensures s != []
  {
    if n < 10 then [Digit(n)] else DecimalNat(n / 10) + [Digit(n % 10)]
  }

  function Decimal(n: int): (s: string)
    ensures s != []
  {
    if n < 0 then "-" + DecimalNat(-n) else DecimalNat(n)
  }

  const BUFFER := 16

  /** canonicalAppendInt: snprintf keeps what fits before the terminator. */
  function Snprintf(n: int): string {
    var s := Decimal(n);
    if |s| < BUFFER then s else s[..BUFFER - 1]
  }

  const LONG_LIMIT := 0x8000_0000

  /** A `long` of the ESP32 has 32 bits. */
  predicate InLong(n: int) {
    -LONG_LIMIT <= n < LONG_LIMIT
  }

  /** `as<long>()`: a JSON number that a long cannot hold is read as 0. */
  function AsLong(n: int): int {
    if InLong(n) then n else 0
  }

  /** A number as the firmware prints it. */
  function DeviceNumber(n: int): string {
    Snprintf(AsLong(n))
  }

  // ---- The server's printer ----

  function RelayText(show: int -> string, r: Relay): string {
    "{\"no\":" + show(r.no) + ",\"boot\":\"" + r.boot + "\"}"
  }

  function EventText(show: int -> string, e: Event): string {
    "{\"sid\":" + show(e.sid) + ",\"relay\":" + show(e.relay) + ",\"day\":" + show(e.day)
    + ",\"time\":\"" + e.time + "\",\"action\":\"" + e.action + "\"}"
  }

  function OnceText(show: int -> string, o: Once): string {
    "{\"sid\":" + show(o.sid) + ",\"relay\":" + show(o.relay) + ",\"date\":\"" + o.date
    + "\",\"time\":\"" + o.time + "\",\"action\":\"" + o.action + "\"}"
  }

  /** `map(text).join(',')` */
  function Joined<T>(list: seq<T>, text: T -> string): string {
    if list == [] then ""
    else if |list| == 1 then text(list[0])
    else Joined(list[..|list| - 1], text) + "," + text(list[|list| - 1])
  }

  function RelayPrinter(show: int -> string): Relay -> string {
    (r) => RelayText(show, r)
  }

  function EventPrinter(show: int -> string): Event -> string {
    (e) => EventText(show, e)
  }

  function OncePrinter(show: int -> string): Once -> string {
    (o) => OnceText(show, o)
  }

  function Assembled(version: string, tz: string, relays: string, events: string, once: string): string {
    "{\"version\":" + version + ",\"tz\":\"" + tz + "\",\"relays\":[" + relays
    + "],\"events\":[" + events + "],\"once\":[" + once + "]}"
  }

  function Canonical(show: int -> string, p: Payload): string {
    Assembled(show(p.version), p.tz, Joined(p.relays, RelayPrinter(show)), Joined(p.events, EventPrinter(show)),
      Joined(p.once, OncePrinter(show)))
  }

  function ServerString(p: Payload): string {
    Canonical(Decimal, p)
  }

  // ---- The firmware's printer ----

  method AppendRelay(s0: string, r: Relay) returns (s: string)
    ensures s == s0 + RelayPrinter(DeviceNumber)(r)
  {
    s := "{\"no\":";
    s := s + DeviceNumber(r.no);
    s := s + ",\"boot\":\"";
    s := s + r.boot;
    s := s + "\"}";
    s := s0 + s;
  }

  method AppendEvent(s0: string, e: Event) returns (s: string)
    ensures s == s0 + EventPrinter(DeviceNumber)(e)
  {
    s := "{\"sid\":";
    s := s + DeviceNumber(e.sid);
    s := s + ",\"relay\":";
    s := s + DeviceNumber(e.relay);
    s := s + ",\"day\":";
    s := s + DeviceNumber(e.day);
    s := s + ",\"time\":\"";
    s := s + e.time;
    s := s + "\",\"action\":\"";
    s := s + e.action;
    s := s + "\"}";
    s := s0 + s;
  }

  method AppendOnce(s0: string, o: Once) returns (s: string)
    ensures s == s0 + OncePrinter(DeviceNumber)(o)
  {
    s := "{\"sid\":";
    s := s + DeviceNumber(o.sid);
    s := s + ",\"relay\":";
    s := s + DeviceNumber(o.relay);
    s := s + ",\"date\":\"";
    s := s + o.date;
    s := s + "\",\"time\":\"";
    s := s + o.time;
    s := s + "\",\"action\":\"";
    s := s + o.action;
    s := s + "\"}";
    s := s0 + s;
  }

  /** One more element of a join. */
  lemma JoinGrows<T>(s0: string, list: seq<T>, i: nat, text: T -> string, was: string, s: string)
    requires i < |list| && was == s0 + Joined(list[..i], text)
    requires s == (if i == 0 then was else was + ",") + text(list[i])
    ensures s == s0 + Joined(list[..i + 1], text)
  {
    assert list[..i + 1][..i] == list[..i];
  }

  method AppendRelays(s0: string, list: seq<Relay>) returns (s: string)
    ensures s == s0 + Joined(list, RelayPrinter(DeviceNumber))
  {
    s := s0;
    var first := true;
    for i := 0 to |list|
      invariant first <==> i == 0
      invariant s == s0 + Joined(list[..i], RelayPrinter(DeviceNumber))
    {
      ghost var was := s;
      if !first {
        s := s + ",";
      }
      first := false;
      s := AppendRelay(s, list[i]);
      JoinGrows(s0, list, i, RelayPrinter(DeviceNumber), was, s);
    }
    assert list[..|list|] == list;
  }

  method AppendEvents(s0: string, list: seq<Event>) returns (s: string)
    ensures s == s0 + Joined(list, EventPrinter(DeviceNumber))
  {
    s := s0;
    var first := true;
    for i := 0 to |list|
      invariant first <==> i == 0
      invariant s == s0 + Joined(list[..i], EventPrinter(DeviceNumber))
    {
      ghost var was := s;
      if !first {
        s := s + ",";
      }
      first := false;
      s := AppendEvent(s, list[i]);
      JoinGrows(s0, list, i, EventPrinter(DeviceNumber), was, s);
    }
    assert list[..|list|] == list;
  }

  method AppendOnces(s0: string, list: seq<Once>) returns (s: string)
    ensures s == s0 + Joined(list, OncePrinter(DeviceNumber))
  {
    s := s0;
    var first := true;
    for i := 0 to |list|
      invariant first <==> i == 0
      invariant s == s0 + Joined(list[..i], OncePrinter(DeviceNumber))
    {
      ghost var was := s;
      if !first {
        s := s + ",";
      }
      first := false;
      s := AppendOnce(s, list[i]);
      JoinGrows(s0, list, i, OncePrinter(DeviceNumber), was, s);
    }
    assert list[..|list|] == list;
  }

  /** The firmware's canonicalString: one string appended in place. */
  method FirmwareString(p: Payload) returns (s: string)
    ensures s == Canonical(DeviceNumber, p)
  {
    s := "{\"version\":";
    s := s + DeviceNumber(p.version);
    s := s + ",\"tz\":\"";
    s := s + p.tz;
    s := s + "\",\"relays\":[";
    s := AppendRelays(s, p.relays);
    s := s + "],\"events\":[";
    s := AppendEvents(s, p.events);
    s := s + "],\"once\":[";
    s := AppendOnces(s, p.once);
    s := s + "]}";
  }

  // ---- When the two printers agree ----

  /** The number prints in at most 15 characters. */
  predicate FitsBuffer(n: int) {
    -100_000_000_000_000 < n < 1_000_000_000_000_000
  }

  function Pow10(k: nat): nat {
    if k == 0 then 1 else 10 * Pow10(k - 1)
  }

  lemma {:induction false} DigitCount(n: nat, k: nat)
    requires k >= 1
    ensures |DecimalNat(n)| <= k <==> n < Pow10(k)
    decreases k
  {
    if k == 1 {
      assert Pow10(1) == 10 * Pow10(0);
    } else {
      PowAtLeast(k);
      if n >= 10 {
        DigitCount(n / 10, k - 1);
        Tenth(n, Pow10(k - 1));
      }
    }
  }

  lemma PowAtLeast(k: nat)
    requires k >= 1
    ensures Pow10(k) >= 10
  {
    assert Pow10(k - 1) >= 1 by {
      PowPositive(k - 1);
    }
  }

  lemma {:induction false} PowPositive(k: nat)
    ensures Pow10(k) >= 1
  {
    if k > 0 {
      PowPositive(k - 1);
    }
  }

  lemma Tenth(n: nat, p: nat)
    ensures n / 10 < p <==> n < 10 * p
  {
  }

  lemma FitsBufferMeansShort(n: int)
    ensures FitsBuffer(n) <==> |Decimal(n)| < BUFFER
  {
    assert Pow10(14) == 100_000_000_000_000 && Pow10(15) == 1_000_000_000_000_000 by {
      assert Pow10(5) == 100_000 && Pow10(10) == 10_000_000_000;
    }
    if n < 0 {
      DigitCount(-n, 14);
    } else {
      DigitCount(n, 15);
    }
  }

  predicate RelayInLong(r: Relay) {
    InLong(r.no)
  }

  predicate EventInLong(e: Event) {
    InLong(e.sid) && InLong(e.relay) && InLong(e.day)
  }

  predicate OnceInLong(o: Once) {
    InLong(o.sid) && InLong(o.relay)
  }

  predicate AllInLong(p: Payload) {
    && InLong(p.version) && (forall r :: r in p.relays ==> RelayInLong(r))
    && (forall e :: e in p.events ==> EventInLong(e)) && (forall o :: o in p.once ==> OnceInLong(o))
  }

  /** The buffer never cuts a long. */
  lemma LongPrintsWhole(n: int)
    requires InLong(n)
    ensures DeviceNumber(n) == Decimal(n)
  {
    FitsBufferMeansShort(n);
  }

  lemma NumberCut(n: int)
    ensures InLong(n) ==> DeviceNumber(n) == Decimal(n)
    ensures !InLong(n) ==> |DeviceNumber(n)| < |Decimal(n)|
  {
    if InLong(n) {
      LongPrintsWhole(n);
    } else {
      assert Decimal(0) == [Digit(0)];
      var m := if n < 0 then -n else n;
      assert DecimalNat(m) == DecimalNat(m / 10) + [Digit(m % 10)];
    }
  }

  /** `cut` prints x like `full` when x is fine and shorter when it is not. */
  ghost predicate Cuts<T(!new)>(cut: T -> string, full: T -> string, fine: T -> bool) {
    forall x :: if fine(x) then cut(x) == full(x) else |cut(x)| < |full(x)|
  }

  lemma {:induction false} JoinCut<T(!new)>(list: seq<T>, cut: T -> string, full: T -> string, fine: T -> bool)
    requires Cuts(cut, full, fine)
    ensures |Joined(list, cut)| <= |Joined(list, full)|
    ensures (forall x :: x in list ==> fine(x)) ==> Joined(list, cut) == Joined(list, full)
    ensures !(forall x :: x in list ==> fine(x)) ==> |Joined(list, cut)| < |Joined(list, full)|
  {
    if |list| > 0 {
      var front, last := list[..|list| - 1], list[|list| - 1];
      assert list == front + [last];
      JoinCut(front, cut, full, fine);
    }
  }

  lemma RelayCuts()
    ensures Cuts(RelayPrinter(DeviceNumber), RelayPrinter(Decimal), (r) => RelayInLong(r))
  {
    forall r: Relay
      ensures if RelayInLong(r) then RelayText(DeviceNumber, r) == RelayText(Decimal, r)
        else |RelayText(DeviceNumber, r)| < |RelayText(Decimal, r)|
    {
      NumberCut(r.no);
    }
  }

  lemma EventCuts()
    ensures Cuts(EventPrinter(DeviceNumber), EventPrinter(Decimal), (e) => EventInLong(e))
  {
    forall e: Event
      ensures if EventInLong(e) then EventText(DeviceNumber, e) == EventText(Decimal, e)
        else |EventText(DeviceNumber, e)| < |EventText(Decimal, e)|
    {
      NumberCut(e.sid);
      NumberCut(e.relay);
      NumberCut(e.day);
    }
  }

  lemma OnceCuts()
    ensures Cuts(OncePrinter(DeviceNumber), OncePrinter(Decimal), (o) => OnceInLong(o))
  {
    forall o: Once
      ensures if OnceInLong(o) then OnceText(DeviceNumber, o) == OnceText(Decimal, o)
        else |OnceText(DeviceNumber, o)| < |OnceText(Decimal, o)|
    {
      NumberCut(o.sid);
      NumberCut(o.relay);
    }
  }

  /** Server and firmware print the same string exactly when every number is a long. */
  lemma PrintersAgree(p: Payload)
    ensures Canonical(DeviceNumber, p) == ServerString(p) <==> AllInLong(p)
  {
    NumberCut(p.version);
    RelayCuts();
    JoinCut(p.relays, RelayPrinter(DeviceNumber), RelayPrinter(Decimal), (r) => RelayInLong(r));
    EventCuts();
    JoinCut(p.events, EventPrinter(DeviceNumber), EventPrinter(Decimal), (e) => EventInLong(e));
    OnceCuts();
    JoinCut(p.once, OncePrinter(DeviceNumber), OncePrinter(Decimal), (o) => OnceInLong(o));
    if !AllInLong(p) {
      assert |Canonical(DeviceNumber, p)| < |Canonical(Decimal, p)|;
    }
  }

  /** A version the server's unsigned column holds and the device cannot read: the strings, and
      so the hashes, differ and the device discards the schedule. */
  lemma LargeVersionDiffers()
    ensures var p := Payload(3_000_000_000, "Asia/Jerusalem", [], [], []);
      Canonical(DeviceNumber, p) != ServerString(p)
  {
    PrintersAgree(Payload(3_000_000_000, "Asia/Jerusalem", [], [], []));
  }

  /** The string of an empty payload, to the byte: empty lists are there. */
  lemma EmptyVector(tz: string)
    ensures ServerString(Payload(3, tz, [], [], []))
      == "{\"version\":3,\"tz\":\"" + tz + "\",\"relays\":[],\"events\":[],\"once\":[]}"
  {
    assert Decimal(3) == "3";
  }
}
