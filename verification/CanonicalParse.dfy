/** Reading a canonical payload string back: an independent left-to-right parser that recovers
    the payload, so no two payloads share a string (and hence a hash input). */
module CanonicalParse {
  import opened Common
  import opened CanonicalPayload

  // ---- Numbers and strings at the front of a string ----

  predicate IsDigit(c: char) {
    '0' <= c <= '9'
  }

  function LeadingDigits(s: string): (k: nat)
    ensures k <= |s| && (forall i :: 0 <= i < k ==> IsDigit(s[i])) && (k < |s| ==> !IsDigit(s[k]))
  {
    if s == [] || !IsDigit(s[0]) then 0 else 1 + LeadingDigits(s[1..])
  }

  function NumberOf(digits: string): int
    requires forall i :: 0 <= i < |digits| ==> IsDigit(digits[i])
  {
    if digits == [] then 0
    else NumberOf(digits[..|digits| - 1]) * 10 + (digits[|digits| - 1] as int - '0' as int)
  }

  function ParseNumber(s: string): (r: Option<(int, string)>)
    ensures r.Some? ==> |r.value.1| < |s|
  {
    var neg := s != [] && s[0] == '-';
    var body := if neg then s[1..] else s;
    var k := LeadingDigits(body);
    if k == 0 then None
    else Some((if neg then -NumberOf(body[..k]) else NumberOf(body[..k]), body[k..]))
  }

  function QuoteAt(s: string): (k: nat)
    ensures k <= |s| && (forall i :: 0 <= i < k ==> s[i] != '"') && (k < |s| ==> s[k] == '"')
  {
    if s == [] || s[0] == '"' then 0 else 1 + QuoteAt(s[1..])
  }

  function ParseText(s: string): (r: Option<(string, string)>)
    ensures r.Some? ==> |r.value.1| < |s|
  {
    var k := QuoteAt(s);
    if k == |s| then None else Some((s[..k], s[k + 1..]))
  }

  predicate NoDigitAhead(s: string) {
    s == [] || !IsDigit(s[0])
  }

  predicate NoQuote(t: string) {
    forall i :: 0 <= i < |t| ==> t[i] != '"'
  }

  lemma {:induction false} DecimalDigits(n: nat)
    ensures forall i :: 0 <= i < |DecimalNat(n)| ==> IsDigit(DecimalNat(n)[i])
    ensures NumberOf(DecimalNat(n)) == n
  {
    if n >= 10 {
      DecimalDigits(n / 10);
      assert DecimalNat(n)[..|DecimalNat(n)| - 1] == DecimalNat(n / 10);
    }
  }

  lemma DigitsEnd(digits: string, tail: string)
    requires (forall i :: 0 <= i < |digits| ==> IsDigit(digits[i])) && NoDigitAhead(tail)
    ensures LeadingDigits(digits + tail) == |digits|
  {
    assert forall i :: 0 <= i < |digits| ==> (digits + tail)[i] == digits[i];
    assert tail != [] ==> (digits + tail)[|digits|] == tail[0];
  }

  lemma DigitsParse(n: nat, tail: string)
    requires NoDigitAhead(tail)
    ensures var digits := DecimalNat(n); var k := LeadingDigits(digits + tail);
      k == |digits| && (digits + tail)[..k] == digits && (digits + tail)[k..] == tail
        && NumberOf((digits + tail)[..k]) == n
  {
    DecimalDigits(n);
    DigitsEnd(DecimalNat(n), tail);
    assert (DecimalNat(n) + tail)[..|DecimalNat(n)|] == DecimalNat(n);
  }

  lemma NatParses(n: nat, tail: string)
    requires NoDigitAhead(tail)
    ensures ParseNumber(DecimalNat(n) + tail) == Some((n as int, tail))
  {
    DigitsParse(n, tail);
    DecimalDigits(n);
    assert IsDigit(DecimalNat(n)[0]) && (DecimalNat(n) + tail)[0] == DecimalNat(n)[0];
  }

  lemma NegativeParses(n: nat, tail: string)
    requires NoDigitAhead(tail)
    ensures ParseNumber("-" + DecimalNat(n) + tail) == Some((0 - n, tail))
  {
    var s := "-" + DecimalNat(n) + tail;
    DigitsParse(n, tail);
    assert s[0] == '-' && s[1..] == DecimalNat(n) + tail;
  }

  /** A printed number is read back, whatever non-digit follows. */
  lemma NumberParses(n: int, tail: string)
    requires NoDigitAhead(tail)
    ensures ParseNumber(Decimal(n) + tail) == Some((n, tail))
  {
    if n < 0 {
      NegativeParses(-n, tail);
    } else {
      NatParses(n, tail);
    }
  }

  lemma TextParses(t: string, tail: string)
    requires NoQuote(t)
    ensures ParseText(t + ("\"" + tail)) == Some((t, tail))
  {
    var s := t + ("\"" + tail);
    assert s[|t|] == '"';
    assert forall i :: 0 <= i < |t| ==> s[i] == t[i];
    assert s[..|t|] == t && s[|t| + 1..] == tail;
  }

  // ---- Objects of a fixed shape ----

  datatype Field = Num(n: int) | Text(t: string)

  /** The literal before a field, and whether the field is quoted. */
  datatype Slot = Slot(before: string, text: bool)
  datatype Shape = Shape(slots: seq<Slot>, close: string)

  predicate Clean(f: Field, slot: Slot) {
    f.Text? == slot.text && (f.Text? ==> NoQuote(f.t))
  }

  predicate Fits(slots: seq<Slot>, fields: seq<Field>) {
    |fields| == |slots| && forall i :: 0 <= i < |slots| ==> Clean(fields[i], slots[i])
  }

  /** No number runs into what follows it. */
  predicate Separated(shape: Shape) {
    (forall i :: 0 <= i < |shape.slots| ==> shape.slots[i].before != [] && NoDigitAhead(shape.slots[i].before))
    && shape.close != [] && NoDigitAhead(shape.close)
  }

  function Print(slots: seq<Slot>, close: string, fields: seq<Field>, tail: string): string {
    if slots == [] || fields == [] then close + tail
    else
      var rest := Print(slots[1..], close, fields[1..], tail);
      slots[0].before + Shown(fields[0], rest)
  }

  function Shown(f: Field, rest: string): string {
    match f
    case Num(n) => Decimal(n) + rest
    case Text(t) => t + ("\"" + rest)
  }

  predicate Starts(s: string, t: string) {
    |t| <= |s| && s[..|t|] == t
  }

  function ParseField(text: bool, s: string): (r: Option<(Field, string)>)
    ensures r.Some? ==> |r.value.1| < |s|
  {
    if text then
      var t := ParseText(s);
      if t.None? then None else Some((Text(t.value.0), t.value.1))
    else
      var n := ParseNumber(s);
      if n.None? then None else Some((Num(n.value.0), n.value.1))
  }

  function Parse(slots: seq<Slot>, close: string, s: string): (r: Option<(seq<Field>, string)>)
    ensures r.Some? ==> |r.value.1| <= |s| && |r.value.0| == |slots|
  {
    if slots == [] then
      if Starts(s, close) then Some(([], s[|close|..])) else None
    else if !Starts(s, slots[0].before) then None
    else
      var f := ParseField(slots[0].text, s[|slots[0].before|..]);
      if f.None? then None
      else
        var rest := Parse(slots[1..], close, f.value.1);
        if rest.None? then None else Some(([f.value.0] + rest.value.0, rest.value.1))
  }

  lemma StartsItself(t: string, rest: string)
    ensures Starts(t + rest, t) && (t + rest)[|t|..] == rest
  {
  }

  lemma PrintSeparates(slots: seq<Slot>, close: string, fields: seq<Field>, tail: string)
    requires Separated(Shape(slots, close)) && |fields| == |slots|
    ensures NoDigitAhead(Print(slots, close, fields, tail))
  {
  }

  lemma FieldParses(f: Field, slot: Slot, rest: string)
    requires Clean(f, slot) && NoDigitAhead(rest)
    ensures ParseField(slot.text, Shown(f, rest)) == Some((f, rest))
  {
    match f
    case Num(n) => NumberParses(n, rest);
    case Text(t) => TextParses(t, rest);
  }

  /** One field and what is known of the rest. */
  lemma {:induction false} FieldFirst(slots: seq<Slot>, close: string, fields: seq<Field>, rest: string, tail: string)
    requires slots != [] && fields != [] && Clean(fields[0], slots[0]) && NoDigitAhead(rest)
    requires Parse(slots[1..], close, rest) == Some((fields[1..], tail))
    ensures Parse(slots, close, slots[0].before + Shown(fields[0], rest)) == Some((fields, tail))
  {
    FieldParses(fields[0], slots[0], rest);
    StartsItself(slots[0].before, Shown(fields[0], rest));
    assert [fields[0]] + fields[1..] == fields;
  }

  lemma LaterSlots(slots: seq<Slot>, close: string, fields: seq<Field>)
    requires slots != [] && Separated(Shape(slots, close)) && Fits(slots, fields)
    ensures Separated(Shape(slots[1..], close)) && Fits(slots[1..], fields[1..])
    ensures Clean(fields[0], slots[0])
  {
  }

  lemma {:induction false} ObjectParses(slots: seq<Slot>, close: string, fields: seq<Field>, tail: string)
    requires Separated(Shape(slots, close)) && Fits(slots, fields)
    ensures Parse(slots, close, Print(slots, close, fields, tail)) == Some((fields, tail))
  {
    if slots == [] {
      StartsItself(close, tail);
    } else {
      LaterSlots(slots, close, fields);
      PrintSeparates(slots[1..], close, fields[1..], tail);
      ObjectParses(slots[1..], close, fields[1..], tail);
      FieldFirst(slots, close, fields, Print(slots[1..], close, fields[1..], tail), tail);
    }
  }

  // ---- Arrays of objects ----

  predicate WellShaped(shape: Shape, list: seq<seq<Field>>) {
    forall i :: 0 <= i < |list| ==> Fits(shape.slots, list[i])
  }

  function PrintSome(shape: Shape, list: seq<seq<Field>>, tail: string): string
    requires list != []
  {
    Print(shape.slots, shape.close, list[0],
      if |list| == 1 then "]" + tail else "," + PrintSome(shape, list[1..], tail))
  }

  function PrintArray(shape: Shape, list: seq<seq<Field>>, tail: string): string {
    if list == [] then "]" + tail else PrintSome(shape, list, tail)
  }

  function ParseSome(shape: Shape, s: string): Option<(seq<seq<Field>>, string)>
    decreases |s|
  {
    var first := Parse(shape.slots, shape.close, s);
    if first.None? then None
    else
      var (one, after) := first.value;
      if Starts(after, "]") then Some(([one], after[1..]))
      else if !Starts(after, ",") then None
      else
        var rest := ParseSome(shape, after[1..]);
        if rest.None? then None else Some(([one] + rest.value.0, rest.value.1))
  }

  function ParseArray(shape: Shape, s: string): Option<(seq<seq<Field>>, string)> {
    if Starts(s, "]") then Some(([], s[1..])) else ParseSome(shape, s)
  }

  lemma ListOfOne(shape: Shape, list: seq<seq<Field>>, tail: string)
    requires Separated(shape) && |list| == 1 && Fits(shape.slots, list[0])
    ensures ParseSome(shape, PrintSome(shape, list, tail)) == Some((list, tail))
  {
    LastParses(shape, list[0], tail);
    assert list == [list[0]];
  }

  lemma ListOfMore(shape: Shape, list: seq<seq<Field>>, tail: string)
    requires Separated(shape) && |list| > 1 && Fits(shape.slots, list[0])
    requires ParseSome(shape, PrintSome(shape, list[1..], tail)) == Some((list[1..], tail))
    ensures ParseSome(shape, PrintSome(shape, list, tail)) == Some((list, tail))
  {
    OneMoreParses(shape, list[0], PrintSome(shape, list[1..], tail), list[1..], tail);
    assert [list[0]] + list[1..] == list;
  }

  lemma WellShapedRest(shape: Shape, list: seq<seq<Field>>)
    requires list != [] && WellShaped(shape, list)
    ensures Fits(shape.slots, list[0]) && WellShaped(shape, list[1..])
  {
  }

  lemma {:induction false} SomeParse(shape: Shape, list: seq<seq<Field>>, tail: string)
    requires Separated(shape) && list != [] && WellShaped(shape, list)
    ensures ParseSome(shape, PrintSome(shape, list, tail)) == Some((list, tail))
  {
    WellShapedRest(shape, list);
    if |list| == 1 {
      ListOfOne(shape, list, tail);
    } else {
      SomeParse(shape, list[1..], tail);
      ListOfMore(shape, list, tail);
    }
  }

  lemma LastParses(shape: Shape, last: seq<Field>, tail: string)
    requires Separated(shape) && Fits(shape.slots, last)
    ensures ParseSome(shape, Print(shape.slots, shape.close, last, "]" + tail)) == Some(([last], tail))
  {
    ObjectParses(shape.slots, shape.close, last, "]" + tail);
    StartsItself("]", tail);
  }

  lemma OneMoreParses(shape: Shape, first: seq<Field>, rest: string, others: seq<seq<Field>>, tail: string)
    requires Separated(shape) && Fits(shape.slots, first) && ParseSome(shape, rest) == Some((others, tail))
    ensures ParseSome(shape, Print(shape.slots, shape.close, first, "," + rest)) == Some(([first] + others, tail))
  {
    ObjectParses(shape.slots, shape.close, first, "," + rest);
    StartsItself(",", rest);
    assert !Starts("," + rest, "]");
  }

  lemma OpensObject(shape: Shape, first: seq<Field>, rest: string)
    requires Separated(shape) && shape.slots != [] && shape.slots[0].before[0] != ']' && |first| == |shape.slots|
    ensures !Starts(Print(shape.slots, shape.close, first, rest), "]")
  {
    var s := Print(shape.slots, shape.close, first, rest);
    assert s[0] == shape.slots[0].before[0] && s[..1][0] == s[0];
  }

  /** An array is read back, given that no object can be taken for the closing bracket. */
  lemma ArrayParses(shape: Shape, list: seq<seq<Field>>, tail: string)
    requires Separated(shape) && shape.slots != [] && shape.slots[0].before[0] != ']'
    requires WellShaped(shape, list)
    ensures ParseArray(shape, PrintArray(shape, list, tail)) == Some((list, tail))
  {
    if list == [] {
      StartsItself("]", tail);
    } else {
      SomeParse(shape, list, tail);
      OpensObject(shape, list[0], if |list| == 1 then "]" + tail else "," + PrintSome(shape, list[1..], tail));
    }
  }

  // ---- The whole payload ----

  const HEAD := Shape([Slot("{\"version\":", false), Slot(",\"tz\":\"", true)], ",\"relays\":[")
  const RELAY := Shape([Slot("{\"no\":", false), Slot(",\"boot\":\"", true)], "}")
  const EVENT := Shape([Slot("{\"sid\":", false), Slot(",\"relay\":", false), Slot(",\"day\":", false),
                        Slot(",\"time\":\"", true), Slot(",\"action\":\"", true)], "}")
  const ONCE := Shape([Slot("{\"sid\":", false), Slot(",\"relay\":", false), Slot(",\"date\":\"", true),
                       Slot(",\"time\":\"", true), Slot(",\"action\":\"", true)], "}")
  const EVENTS := ",\"events\":["
  const ONCES := ",\"once\":["

  /** The head, then three arrays with a literal after each. */
  datatype Grammar = Grammar(head: Shape, relay: Shape, event: Shape, once: Shape, afterRelays: string,
        afterEvents: string, end: string)

  const GRAMMAR := Grammar(HEAD, RELAY, EVENT, ONCE, EVENTS, ONCES, "}")

  predicate OpensAnObject(shape: Shape) {
    Separated(shape) && shape.slots != [] && shape.slots[0].before != [] && shape.slots[0].before[0] != ']'
  }

  predicate Readable(g: Grammar) {
    Separated(g.head) && OpensAnObject(g.relay) && OpensAnObject(g.event) && OpensAnObject(g.once)
  }

  lemma PayloadIsReadable()
    ensures Readable(GRAMMAR)
  {
  }

  function RelayFields(r: Relay): seq<Field> {
    [Num(r.no), Text(r.boot)]
  }

  function EventFields(e: Event): seq<Field> {
    [Num(e.sid), Num(e.relay), Num(e.day), Text(e.time), Text(e.action)]
  }

  function OnceFields(o: Once): seq<Field> {
    [Num(o.sid), Num(o.relay), Text(o.date), Text(o.time), Text(o.action)]
  }

  function All<A, B>(list: seq<A>, f: A -> B): (r: seq<B>)
    ensures |r| == |list| && forall i :: 0 <= i < |list| ==> r[i] == f(list[i])
  {
    seq(|list|, i requires 0 <= i < |list| => f(list[i]))
  }

  function NumAt(fields: seq<Field>, i: nat): int {
    if i < |fields| && fields[i].Num? then fields[i].n else 0
  }

  function TextAt(fields: seq<Field>, i: nat): string {
    if i < |fields| && fields[i].Text? then fields[i].t else ""
  }

  function ToRelay(f: seq<Field>): Relay {
    Relay(NumAt(f, 0), TextAt(f, 1))
  }

  function ToEvent(f: seq<Field>): Event {
    Event(NumAt(f, 0), NumAt(f, 1), NumAt(f, 2), TextAt(f, 3), TextAt(f, 4))
  }

  function ToOnce(f: seq<Field>): Once {
    Once(NumAt(f, 0), NumAt(f, 1), TextAt(f, 2), TextAt(f, 3), TextAt(f, 4))
  }

  /** An array and the literal after it. */
  function ParsePart(shape: Shape, after: string, s: string): Option<(seq<seq<Field>>, string)> {
    var part := ParseArray(shape, s);
    if part.None? || !Starts(part.value.1, after) then None else Some((part.value.0, part.value.1[|after|..]))
  }

  /** Head fields and the three arrays. */
  datatype Raw = Raw(head: seq<Field>, relays: seq<seq<Field>>, events: seq<seq<Field>>, once: seq<seq<Field>>)

  /** Reads a whole canonical string; anything left over is an error. */
  function ParseRaw(g: Grammar, s: string): Option<Raw> {
    var head := Parse(g.head.slots, g.head.close, s);
    if head.None? then None
    else
      var relays := ParsePart(g.relay, g.afterRelays, head.value.1);
      if relays.None? then None
      else
        var events := ParsePart(g.event, g.afterEvents, relays.value.1);
        if events.None? then None
        else
          var once := ParsePart(g.once, g.end, events.value.1);
          if once.None? || once.value.1 != "" then None
          else Some(Raw(head.value.0, relays.value.0, events.value.0, once.value.0))
  }

  function PrintRaw(g: Grammar, raw: Raw): string {
    Print(g.head.slots, g.head.close, raw.head,
      PrintArray(g.relay, raw.relays, g.afterRelays
        + PrintArray(g.event, raw.events, g.afterEvents
          + PrintArray(g.once, raw.once, g.end))))
  }

  predicate RawFits(g: Grammar, raw: Raw) {
    Fits(g.head.slots, raw.head) && WellShaped(g.relay, raw.relays) && WellShaped(g.event, raw.events)
      && WellShaped(g.once, raw.once)
  }

  lemma RawParses(g: Grammar, raw: Raw)
    requires Readable(g) && RawFits(g, raw)
    ensures ParseRaw(g, PrintRaw(g, raw)) == Some(raw)
  {
    var once := PrintArray(g.once, raw.once, g.end);
    var events := PrintArray(g.event, raw.events, g.afterEvents + once);
    var relays := PrintArray(g.relay, raw.relays, g.afterRelays + events);
    ObjectParses(g.head.slots, g.head.close, raw.head, relays);
    PartParses(g.relay, raw.relays, g.afterRelays, events);
    PartParses(g.event, raw.events, g.afterEvents, once);
    assert g.end + "" == g.end;
    PartParses(g.once, raw.once, g.end, "");
  }

  lemma PartParses(shape: Shape, list: seq<seq<Field>>, after: string, tail: string)
    requires OpensAnObject(shape) && WellShaped(shape, list)
    ensures ParsePart(shape, after, PrintArray(shape, list, after + tail)) == Some((list, tail))
  {
    ArrayParses(shape, list, after + tail);
    StartsItself(after, tail);
  }

  function ToRaw(p: Payload): Raw {
    Raw([Num(p.version), Text(p.tz)], All(p.relays, RelayFields), All(p.events, EventFields), All(p.once, OnceFields))
  }

  function FromRaw(raw: Raw): Payload {
    Payload(NumAt(raw.head, 0), TextAt(raw.head, 1), All(raw.relays, ToRelay), All(raw.events, ToEvent),
      All(raw.once, ToOnce))
  }

  function ParsePayload(s: string): Option<Payload> {
    var raw := ParseRaw(GRAMMAR, s);
    if raw.None? then None else Some(FromRaw(raw.value))
  }

  // ---- The printed string, piece by piece ----

  /** Joining from the front. */
  lemma {:induction false} JoinedFromFront<T>(list: seq<T>, text: T -> string)
    requires list != []
    ensures Joined(list, text) == text(list[0]) + if |list| == 1 then "" else "," + Joined(list[1..], text)
  {
    if |list| > 1 {
      var front, last := list[..|list| - 1], list[|list| - 1];
      JoinedFromFront(front, text);
      assert list[1..][..|list| - 2] == front[1..];
      if |list| == 2 {
        assert front == [list[0]] && list[1..] == [last];
      }
    }
  }

  /** `text` prints x as the object `fields` makes of it, whatever follows. */
  ghost predicate PrintsAs<T(!new)>(text: T -> string, fields: T -> seq<Field>, shape: Shape) {
    forall x, tail: string :: PrintsOne(text, fields, shape, x, tail)
  }

  predicate PrintsOne<T>(text: T -> string, fields: T -> seq<Field>, shape: Shape, x: T, tail: string) {
    text(x) + tail == Print(shape.slots, shape.close, fields(x), tail)
  }

  lemma {:induction false} ArrayText<T(!new)>(list: seq<T>, text: T -> string, fields: T -> seq<Field>, shape: Shape,
        tail: string)
    requires PrintsAs(text, fields, shape) && WellShaped(shape, All(list, fields))
    ensures Joined(list, text) + ("]" + tail) == PrintArray(shape, All(list, fields), tail)
  {
    if list != [] {
      JoinedFromFront(list, text);
      var x, others := list[0], list[1..];
      assert All(list, fields)[0] == fields(x) && All(list, fields)[1..] == All(others, fields);
      if |list| == 1 {
        assert PrintsOne(text, fields, shape, x, "]" + tail);
      } else {
        assert WellShaped(shape, All(others, fields));
        ArrayText(others, text, fields, shape, tail);
        OneMoreText(Joined(others, text), "]" + tail, PrintArray(shape, All(others, fields), tail), text(x));
        var more := PrintArray(shape, All(others, fields), tail);
        assert PrintsOne(text, fields, shape, x, "," + more);
      }
    }
  }

  lemma OneMoreText(joined: string, end: string, rest: string, first: string)
    requires joined + end == rest
    ensures (first + ("," + joined)) + end == first + ("," + rest)
  {
    Assoc(first, "," + joined, end);
    Assoc(",", joined, end);
  }

  lemma PrintAt(slots: seq<Slot>, close: string, f: seq<Field>, k: nat, tail: string)
    requires k < |slots| == |f|
    ensures Print(slots[k..], close, f[k..], tail)
      == slots[k].before + Shown(f[k], Print(slots[k + 1..], close, f[k + 1..], tail))
  {
    assert slots[k..][1..] == slots[k + 1..] && f[k..][1..] == f[k + 1..];
  }

  lemma PrintEnd(slots: seq<Slot>, close: string, f: seq<Field>, tail: string)
    requires |slots| == |f|
    ensures slots[0..] == slots && f[0..] == f
    ensures Print(slots[|slots|..], close, f[|f|..], tail) == close + tail
  {
  }

  lemma Print2(b0: string, b1: string, x0: int, x1: string, close: string, tail: string)
    ensures Print([Slot(b0, false), Slot(b1, true)], close, [Num(x0), Text(x1)], tail)
      == b0 + (Decimal(x0) + (b1 + (x1 + ("\"" + (close + tail)))))
  {
    var slots, f := [Slot(b0, false), Slot(b1, true)], [Num(x0), Text(x1)];
    PrintAt(slots, close, f, 0, tail);
    PrintAt(slots, close, f, 1, tail);
    PrintEnd(slots, close, f, tail);
  }

  lemma Assoc(a: string, b: string, c: string)
    ensures (a + b) + c == a + (b + c)
  {
  }

  lemma Flat5(a: string, b: string, c: string, d: string, e: string, tail: string)
    ensures a + b + c + d + e + tail == a + (b + (c + (d + (e + tail))))
  {
    Assoc(a + b + c + d, e, tail);
    Assoc(a + b + c, d, e + tail);
    Assoc(a + b, c, d + (e + tail));
    Assoc(a, b, c + (d + (e + tail)));
  }

  lemma Flat11(a: string, b: string, c: string, d: string, e: string, f: string, g: string, h: string, i: string,
        j: string, k: string, tail: string)
    ensures a + b + c + d + e + f + g + h + i + j + k + tail
      == a + (b + (c + (d + (e + (f + (g + (h + (i + (j + (k + tail))))))))))
  {
    Flat5(a + b + c + d + e + f, g, h, i, j, k + tail);
    Assoc(a + b + c + d + e + f + g + h + i + j, k, tail);
    Flat5(a + b, c, d, e, f, g + (h + (i + (j + (k + tail)))));
    Assoc(a, b, c + (d + (e + (f + (g + (h + (i + (j + (k + tail)))))))));
  }

  lemma QuoteFirst(literal: string, rest: string, tail: string)
    requires literal == "\"" + rest
    ensures literal + tail == "\"" + (rest + tail)
  {
  }

  /** A template of two fields is the object with these literals. */
  lemma Template2(b0: string, b1: string, x0: int, x1: string, close: string, q: string, tail: string)
    requires q == "\"" + close
    ensures b0 + Decimal(x0) + b1 + x1 + q + tail
      == Print([Slot(b0, false), Slot(b1, true)], close, [Num(x0), Text(x1)], tail)
  {
    Flat5(b0, Decimal(x0), b1, x1, q, tail);
    QuoteFirst(q, close, tail);
    Print2(b0, b1, x0, x1, close, tail);
  }

  lemma RelayPrints(r: Relay, tail: string)
    ensures RelayText(Decimal, r) + tail == Print(RELAY.slots, RELAY.close, RelayFields(r), tail)
  {
    Template2("{\"no\":", ",\"boot\":\"", r.no, r.boot, "}", "\"}", tail);
  }

  lemma Print5(b: seq<string>, x: seq<Field>, slots: seq<Slot>, close: string, tail: string)
    requires |b| == |x| == |slots| == 5 && forall i :: 0 <= i < 5 ==> slots[i].before == b[i]
    ensures Print(slots, close, x, tail)
      == b[0] + Shown(x[0], b[1]
        + Shown(x[1], b[2] + Shown(x[2], b[3] + Shown(x[3], b[4] + Shown(x[4], close + tail)))))
  {
    PrintAt(slots, close, x, 0, tail);
    PrintAt(slots, close, x, 1, tail);
    PrintAt(slots, close, x, 2, tail);
    PrintAt(slots, close, x, 3, tail);
    PrintAt(slots, close, x, 4, tail);
    PrintEnd(slots, close, x, tail);
  }

  /** The event template: three numbers, then two quoted texts. */
  lemma Template32(b: seq<string>, x: seq<Field>, slots: seq<Slot>, q4: string, q5: string, close: string, tail: string)
    requires |b| == |x| == |slots| == 5 && forall i :: 0 <= i < 5 ==> slots[i].before == b[i]
    requires x[0].Num? && x[1].Num? && x[2].Num? && x[3].Text? && x[4].Text?
    requires q4 == "\"" + b[4] && q5 == "\"" + close
    ensures b[0] + Decimal(x[0].n) + b[1] + Decimal(x[1].n) + b[2] + Decimal(x[2].n) + b[3] + x[3].t + q4 + x[4].t
      + q5 + tail
      == Print(slots, close, x, tail)
  {
    Print5(b, x, slots, close, tail);
    Flat11(b[0], Decimal(x[0].n), b[1], Decimal(x[1].n), b[2], Decimal(x[2].n), b[3], x[3].t, q4, x[4].t, q5, tail);
    QuoteFirst(q5, close, tail);
    QuoteFirst(q4, b[4], x[4].t + (q5 + tail));
  }

  /** The one-off template: two numbers, then three quoted texts. */
  lemma Template23(b: seq<string>, x: seq<Field>, slots: seq<Slot>, q3: string, q4: string, q5: string, close: string,
        tail: string)
    requires |b| == |x| == |slots| == 5 && forall i :: 0 <= i < 5 ==> slots[i].before == b[i]
    requires x[0].Num? && x[1].Num? && x[2].Text? && x[3].Text? && x[4].Text?
    requires q3 == "\"" + b[3] && q4 == "\"" + b[4] && q5 == "\"" + close
    ensures b[0] + Decimal(x[0].n) + b[1] + Decimal(x[1].n) + b[2] + x[2].t + q3 + x[3].t + q4 + x[4].t + q5 + tail
      == Print(slots, close, x, tail)
  {
    Print5(b, x, slots, close, tail);
    Flat11(b[0], Decimal(x[0].n), b[1], Decimal(x[1].n), b[2], x[2].t, q3, x[3].t, q4, x[4].t, q5, tail);
    QuoteFirst(q5, close, tail);
    QuoteFirst(q4, b[4], x[4].t + (q5 + tail));
    QuoteFirst(q3, b[3], x[3].t + (q4 + (x[4].t + (q5 + tail))));
  }

  lemma EventPrints(e: Event, tail: string)
    ensures EventText(Decimal, e) + tail == Print(EVENT.slots, EVENT.close, EventFields(e), tail)
  {
    Template32(["{\"sid\":", ",\"relay\":", ",\"day\":", ",\"time\":\"", ",\"action\":\""], EventFields(e), EVENT.slots,
               "\",\"action\":\"", "\"}", "}", tail);
  }

  lemma OncePrints(o: Once, tail: string)
    ensures OnceText(Decimal, o) + tail == Print(ONCE.slots, ONCE.close, OnceFields(o), tail)
  {
    Template23(["{\"sid\":", ",\"relay\":", ",\"date\":\"", ",\"time\":\"", ",\"action\":\""], OnceFields(o),
      ONCE.slots, "\",\"time\":\"", "\",\"action\":\"", "\"}", "}", tail);
  }

  // ---- Round trip ----

  /** No text of the payload has a quote in it. */
  predicate QuoteFree(p: Payload) {
    && NoQuote(p.tz) && (forall r :: r in p.relays ==> NoQuote(r.boot))
    && (forall e :: e in p.events ==> NoQuote(e.time) && NoQuote(e.action))
    && (forall o :: o in p.once ==> NoQuote(o.date) && NoQuote(o.time) && NoQuote(o.action))
  }

  lemma PayloadFits(p: Payload)
    requires QuoteFree(p)
    ensures RawFits(GRAMMAR, ToRaw(p))
  {
  }

  lemma FieldsComeBack(p: Payload)
    ensures FromRaw(ToRaw(p)) == p
  {
    assert All(All(p.relays, RelayFields), ToRelay) == p.relays;
    assert All(All(p.events, EventFields), ToEvent) == p.events;
    assert All(All(p.once, OnceFields), ToOnce) == p.once;
  }

  /** The payload template, with `]` split off the literals that close an array. */
  lemma PayloadTemplate(b0: string, b1: string, x0: int, x1: string, q: string, close: string, relays: string,
        m1: string, e0: string, events: string, m2: string, o0: string, once: string)
    requires q == "\"" + close && m1 == "]" + e0 && m2 == "]" + o0
    ensures b0 + Decimal(x0) + b1 + x1 + q + relays + m1 + events + m2 + once + "]}"
      == Print([Slot(b0, false), Slot(b1, true)], close, [Num(x0), Text(x1)],
           relays + ("]" + (e0 + (events + ("]" + (o0 + (once + ("]" + "}"))))))))
  {
    var end := once + "]}";
    var rest := relays + (m1 + (events + (m2 + end)));
    Assoc(b0 + Decimal(x0) + b1 + x1 + q + relays + m1 + events + m2, once, "]}");
    Flat5(b0 + Decimal(x0) + b1 + x1 + q, relays, m1, events, m2, end);
    Template2(b0, b1, x0, x1, close, q, rest);
    Assoc("]", e0, events + (m2 + end));
    Assoc("]", o0, end);
    assert "]}" == "]" + "}";
  }

  lemma RelaysAreObjects()
    ensures PrintsAs(RelayPrinter(Decimal), RelayFields, RELAY)
  {
    forall r: Relay, tail: string
      ensures PrintsOne(RelayPrinter(Decimal), RelayFields, RELAY, r, tail)
    {
      RelayPrints(r, tail);
    }
  }

  lemma EventsAreObjects()
    ensures PrintsAs(EventPrinter(Decimal), EventFields, EVENT)
  {
    forall e: Event, tail: string
      ensures PrintsOne(EventPrinter(Decimal), EventFields, EVENT, e, tail)
    {
      EventPrints(e, tail);
    }
  }

  lemma OncesAreObjects()
    ensures PrintsAs(OncePrinter(Decimal), OnceFields, ONCE)
  {
    forall o: Once, tail: string
      ensures PrintsOne(OncePrinter(Decimal), OnceFields, ONCE, o, tail)
    {
      OncePrints(o, tail);
    }
  }

  lemma AssembledPrints(version: int, tz: string, relays: string, events: string, once: string)
    ensures Assembled(Decimal(version), tz, relays, events, once)
      == Print(HEAD.slots, HEAD.close, [Num(version), Text(tz)],
      relays + ("]" + (EVENTS + (events + ("]" + (ONCES + (once + ("]" + "}"))))))))
  {
    PayloadTemplate("{\"version\":", ",\"tz\":\"", version, tz, "\",\"relays\":[", ",\"relays\":[", relays,
                    "],\"events\":[", ",\"events\":[", events, "],\"once\":[", ",\"once\":[", once);
  }

  lemma Layers(slots: seq<Slot>, close: string, fields: seq<Field>, m1: string, m2: string, r: string, e: string,
        o: string, relays: string, events: string, once: string)
    requires o + ("]" + "}") == once && e + ("]" + (m2 + once)) == events && r + ("]" + (m1 + events)) == relays
    ensures Print(slots, close, fields, r + ("]" + (m1 + (e + ("]" + (m2 + (o + ("]" + "}"))))))))
      == Print(slots, close, fields, relays)
  {
  }

  lemma ServerPrintsTheGrammar(p: Payload)
    requires QuoteFree(p)
    ensures ServerString(p) == PrintRaw(GRAMMAR, ToRaw(p))
  {
    PayloadFits(p);
    RelaysAreObjects();
    EventsAreObjects();
    OncesAreObjects();
    var r, e, o := Joined(p.relays, RelayPrinter(Decimal)), Joined(p.events, EventPrinter(Decimal)),
      Joined(p.once, OncePrinter(Decimal));
    var once := PrintArray(ONCE, All(p.once, OnceFields), "}");
    ArrayText(p.once, OncePrinter(Decimal), OnceFields, ONCE, "}");
    var events := PrintArray(EVENT, All(p.events, EventFields), ONCES + once);
    ArrayText(p.events, EventPrinter(Decimal), EventFields, EVENT, ONCES + once);
    var relays := PrintArray(RELAY, All(p.relays, RelayFields), EVENTS + events);
    ArrayText(p.relays, RelayPrinter(Decimal), RelayFields, RELAY, EVENTS + events);
    AssembledPrints(p.version, p.tz, r, e, o);
    Layers(HEAD.slots, HEAD.close, [Num(p.version), Text(p.tz)], EVENTS, ONCES, r, e, o, relays, events, once);
  }

  /** Reading what the server printed gives the payload back. */
  lemma RoundTrip(p: Payload)
    requires QuoteFree(p)
    ensures ParsePayload(ServerString(p)) == Some(p)
  {
    ServerPrintsTheGrammar(p);
    PayloadIsReadable();
    PayloadFits(p);
    RawParses(GRAMMAR, ToRaw(p));
    FieldsComeBack(p);
  }

  /** Different payloads have different canonical strings. */
  lemma StringsTellPayloadsApart(p: Payload, q: Payload)
    requires QuoteFree(p) && QuoteFree(q) && ServerString(p) == ServerString(q)
    ensures p == q
  {
    RoundTrip(p);
    RoundTrip(q);
  }
}
