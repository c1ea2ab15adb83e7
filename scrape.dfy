/** The post-processing half of `scrape_events`: the raw items the page
    script returns become `(name, status)` pairs. */
module Scrape {
  import opened Wrappers
  import opened Text
  import opened Numerals
  import opened Countdown

  /** One object from the page script: `{name, active, hhmmss}`, with
      `hhmmss` possibly `null`. */
  datatype RawItem = RawItem(name: string, active: bool, hhmmss: Option<string>)

  /** A `(name, status)` pair of the result list. */
  datatype Event = Event(name: string, status: string)

  datatype Clock = Clock(h: int, m: int, s: int)

  /** `h, m, s = map(int, t.split(":"))`, with `None` wherever that raises:
      a piece count other than three, or a piece `int()` rejects. */
  function ParseHhmmss(t: string): (r: Option<Clock>)
    ensures r.Some? ==> multiset(t)[':'] == 2
  {
    var parts := Split(t, ':');
    SplitPieces(t, ':');
    if |parts| != 3 then None
    else
      match (ParseInt(parts[0]), ParseInt(parts[1]), ParseInt(parts[2]))
      case (Some(h), Some(m), Some(s)) => Some(Clock(h, m, s))
      case _ => None
  }

  /** A field of two decimal digits, as the page's `\d{2}` matches it. */
  function TwoDigits(n: nat): (r: string)
    requires n < 100
  {
    [DigitChar(n / 10), DigitChar(n % 10)]
  }

  lemma TwoDigitsValue(n: nat)
    requires n < 100
    ensures DecimalValue(TwoDigits(n)) == n
  {
    var d := TwoDigits(n);
    assert d[..1] == [d[0]];
    assert DecimalValue([d[0]]) == n / 10;
  }

  lemma ParseTwoDigits(n: nat)
    requires n < 100
    ensures ParseInt(TwoDigits(n)) == Some(n)
    ensures ':' !in TwoDigits(n)
  {
    var d := TwoDigits(n);
    assert ParseInt(d) == Some(DecimalValue(d)) by { ParseIntDigits(d); }
    TwoDigitsValue(n);
  }

  /** Every countdown in the `DD:DD:DD` shape the page script extracts
      parses to its three fields. */
  lemma ParseHhmmssOfFields(t: string, a: string, b: string, c: string, h: int, m: int, s: int)
    requires Split(t, ':') == [a, b, c]
    requires ParseInt(a) == Some(h) && ParseInt(b) == Some(m) && ParseInt(c) == Some(s)
    ensures ParseHhmmss(t) == Some(Clock(h, m, s))
  {
  }

  lemma ParseScrapedCountdown(h: nat, m: nat, s: nat)
    requires h < 100 && m < 100 && s < 100
    ensures ParseHhmmss(TwoDigits(h) + ":" + TwoDigits(m) + ":" + TwoDigits(s)) == Some(Clock(h, m, s))
  {
    var a, b, c := TwoDigits(h), TwoDigits(m), TwoDigits(s);
    var t := a + ":" + b + ":" + c;
    ParseTwoDigits(h);
    ParseTwoDigits(m);
    ParseTwoDigits(s);
    assert Split(t, ':') == [a, b, c] by {
      assert t == a + [':'] + b + [':'] + c;
      SplitThreeWords(a, b, c, ':');
    }
    ParseHhmmssOfFields(t, a, b, c, h, m, s);
  }

  /** What the loop body of `scrape_events` makes of one item: `None`
      where it hits `continue`. */
  function StatusOf(it: RawItem): Option<Event>
  {
    var name := Strip(it.name);
    if name == [] then None
    else if it.active then Some(Event(name, NowActive))
    else if it.hhmmss.Some? && it.hhmmss.value != [] then
      match ParseHhmmss(it.hhmmss.value)
      case None => None
      case Some(c) => Some(Event(name, HhmmssToText(c.h, c.m, c.s)))
    else None
  }

  /** The filters and the priority of the loop body: an item survives only
      with a non-empty stripped name, which becomes the event name; an
      active item always gets `NOW ACTIVE`, whatever its countdown; a
      non-active item survives exactly when its countdown is present and
      parses, and its status is the phrase for the parsed fields. */
  lemma StatusOfCases(it: RawItem)
    ensures StatusOf(it).Some? ==> StatusOf(it).value.name == Strip(it.name) != []
    ensures Strip(it.name) == [] ==> StatusOf(it) == None
    ensures Strip(it.name) != [] && it.active ==> StatusOf(it) == Some(Event(Strip(it.name), NowActive))
    ensures Strip(it.name) != [] && !it.active ==>
              (StatusOf(it).Some? <==> it.hhmmss.Some? && ParseHhmmss(it.hhmmss.value).Some?)
    ensures StatusOf(it).Some? && !it.active ==>
              var c := ParseHhmmss(it.hhmmss.value).value;
              StatusOf(it).value.status == HhmmssToText(c.h, c.m, c.s)
  {
    if it.hhmmss.Some? && it.hhmmss.value == [] {
      assert ParseHhmmss(it.hhmmss.value) == None;
    }
  }

  /** The result list of `scrape_events` for the given items. */
  function ScrapedEvents(items: seq<RawItem>): (events: seq<Event>)
    ensures |events| <= |items|
  {
    if items == [] then []
    else
      ScrapedEvents(items[..|items| - 1]) + Appended(StatusOf(items[|items| - 1]))
  }

  /** The loop of `scrape_events` over the scraped items. */
  method DeriveStatuses(items: seq<RawItem>) returns (result: seq<Event>)
    ensures result == ScrapedEvents(items)
  {
    result := [];
    for i := 0 to |items|
      invariant result == ScrapedEvents(items[..i])
    {
      assert items[..i + 1][..i] == items[..i];
      var name := Strip(items[i].name);
      var active := items[i].active;
      var hhmmss := items[i].hhmmss;
      if name == [] {
        continue;
      }
      var status: string;
      if active {
        status := NowActive;
      } else if hhmmss.Some? && hhmmss.value != [] {
        var parsed := ParseHhmmss(hhmmss.value);
        if parsed.None? {
          continue;
        }
        status := HhmmssToText(parsed.value.h, parsed.value.m, parsed.value.s);
      } else {
        continue;
      }
      result := result + [Event(name, status)];
    }
    assert items[..|items|] == items;
  }

  /** Positions of the items the loop keeps, in order. */
  function KeptIndices(items: seq<RawItem>): seq<nat> {
    if items == [] then []
    else
      KeptIndices(items[..|items| - 1])
      + if StatusOf(items[|items| - 1]).Some? then [|items| - 1] else []
  }

  /** What the loop body makes of each item, position by position. */
  function Outcomes(items: seq<RawItem>): (outs: seq<Option<Event>>)
    ensures |outs| == |items|
  {
    seq(|items|, i requires 0 <= i < |items| => StatusOf(items[i]))
  }

  /** `idx` traces `events` back to the outcomes `outs`: the k-th event is
      the outcome at position `idx[k]`, the positions strictly increase,
      and every position with an outcome is in `idx`. */
  ghost predicate TracedBy(outs: seq<Option<Event>>, idx: seq<nat>, events: seq<Event>) {
    && Sources(outs, idx, events)
    && (forall k, l :: 0 <= k < l < |idx| ==> idx[k] < idx[l])
    && Covers(outs, idx)
  }

  ghost predicate Sources(outs: seq<Option<Event>>, idx: seq<nat>, events: seq<Event>) {
    && |idx| == |events|
    && (forall k :: 0 <= k < |idx| ==> idx[k] < |outs| && outs[idx[k]] == Some(events[k]))
  }

  ghost predicate Covers(outs: seq<Option<Event>>, idx: seq<nat>) {
    forall i :: 0 <= i < |outs| && outs[i].Some? ==> i in idx
  }

  /** The events the loop appends for one outcome: none or one. */
  function Appended(out: Option<Event>): seq<Event> {
    match out case Some(e) => [e] case None => []
  }

  lemma TracedByStep(outs: seq<Option<Event>>, idx: seq<nat>, events: seq<Event>)
    requires outs != []
    requires TracedBy(outs[..|outs| - 1], idx, events)
    ensures var n := |outs| - 1;
            TracedBy(outs, idx + (if outs[n].Some? then [n] else []), events + Appended(outs[n]))
  {
    var n := |outs| - 1;
    var init := outs[..n];
    var idx' := idx + (if outs[n].Some? then [n] else []);
    var events' := events + Appended(outs[n]);
    forall k | 0 <= k < |idx'|
      ensures idx'[k] < |outs| && outs[idx'[k]] == Some(events'[k])
    {
      if k < |idx| {
        assert init[idx[k]] == outs[idx[k]];
      }
    }
    forall i | 0 <= i < |outs| && outs[i].Some?
      ensures i in idx'
    {
      if i < n {
        assert init[i] == outs[i];
        assert i in idx;
      } else {
        assert idx'[|idx|] == n;
      }
    }
  }

  /** The result lists exactly the items that survive the filters, in
      their original order: traced back through `KeptIndices`, the k-th
      event is what the loop body makes of the item at the k-th kept
      position, kept positions increase, and no surviving item is left out. */
  lemma {:induction false} ScrapedEventsTrace(items: seq<RawItem>)
    ensures TracedBy(Outcomes(items), KeptIndices(items), ScrapedEvents(items))
  {
    if items != [] {
      var n := |items| - 1;
      var outs := Outcomes(items);
      ScrapedEventsTrace(items[..n]);
      assert Outcomes(items[..n]) == outs[..n];
      assert outs[n] == StatusOf(items[n]);
      TracedByStep(outs, KeptIndices(items[..n]), ScrapedEvents(items[..n]));
    }
  }

  /** A kept item's event has a non-empty, already stripped name, and a
      status that reads as a countdown phrase. */
  lemma EventWellFormed(it: RawItem)
    requires StatusOf(it).Some?
    ensures var e := StatusOf(it).value;
            e.name != [] && Strip(e.name) == e.name && '\n' !in e.status
            && ReadPhrase(e.status).Some?
  {
    var e := StatusOf(it).value;
    StatusOfCases(it);
    StripUnpadded(e.name);
    if it.active {
      ReadNowActive();
    } else {
      var c := ParseHhmmss(it.hhmmss.value).value;
      PhraseRoundTrip(c.h, c.m, c.s);
    }
  }

  /** Every derived event has a non-empty, already stripped name, and a
      status that reads as a countdown phrase with no line break. */
  lemma {:induction false} DerivedEventsWellFormed(items: seq<RawItem>)
    ensures forall e :: e in ScrapedEvents(items) ==>
              e.name != [] && Strip(e.name) == e.name && '\n' !in e.status
              && ReadPhrase(e.status).Some?
  {
    if items != [] {
      var n := |items| - 1;
      DerivedEventsWellFormed(items[..n]);
      if StatusOf(items[n]).Some? {
        EventWellFormed(items[n]);
      }
    }
  }
}
