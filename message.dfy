/** The embed description: `build_lines`, applied by `main` to at most
    the first ten events. */
module Message {
  import opened Text
  import opened Scrape

  const EmptyNotice := "No events found."

  /** How many events `main` passes on (`events[:10]`). */
  const MaxEvents := 10

  /** `f"• {n} : {s}"`. */
  function Line(e: Event): string {
    "\U{2022} " + e.name + " : " + e.status
  }

  function Lines(events: seq<Event>): seq<string> {
    seq(|events|, k requires 0 <= k < |events| => Line(events[k]))
  }

  /** `build_lines`: one bullet line per event, joined by newlines. */
  function BuildLines(events: seq<Event>): (body: string)
    ensures body == EmptyNotice <==> events == []
  {
    if events == [] then EmptyNotice
    else
      var lines := Lines(events);
      assert lines[0][0] == '\U{2022}' != EmptyNotice[0];
      Join(lines, '\n')
  }

  /** The description `main` builds from the scraped events. */
  function MessageBody(events: seq<Event>): string {
    BuildLines(events[..if |events| < MaxEvents then |events| else MaxEvents])
  }

  /** No name or status holds a line break. */
  predicate SingleLine(events: seq<Event>) {
    forall k :: 0 <= k < |events| ==> '\n' !in events[k].name && '\n' !in events[k].status
  }

  /** Split at its line breaks, a non-empty body gives back exactly one
      bullet line per event, in order, with no trailing empty line. */
  lemma BuildLinesSplit(events: seq<Event>)
    requires events != [] && SingleLine(events)
    ensures Split(BuildLines(events), '\n') == Lines(events)
    ensures forall k :: 0 <= k < |events| ==>
              Split(BuildLines(events), '\n')[k] == "\U{2022} " + events[k].name + " : " + events[k].status
  {
    var lines := Lines(events);
    forall k | 0 <= k < |lines|
      ensures '\n' !in lines[k]
    {
      assert lines[k] == "\U{2022} " + events[k].name + " : " + events[k].status;
    }
    SplitJoin(lines, '\n');
  }

  /** The posted description has at most ten lines: the first ten events
      in order, or all of them when there are fewer. */
  lemma MessageBodyLines(events: seq<Event>)
    requires SingleLine(events)
    ensures events == [] ==> MessageBody(events) == EmptyNotice
    ensures events != [] ==>
              var lines := Split(MessageBody(events), '\n');
              |lines| == (if |events| < MaxEvents then |events| else MaxEvents)
              && (forall k :: 0 <= k < |lines| ==> lines[k] == Line(events[k]))
  {
    if events != [] {
      var kept := events[..if |events| < MaxEvents then |events| else MaxEvents];
      assert SingleLine(kept);
      BuildLinesSplit(kept);
    }
  }

  /** Statuses never hold a line break and stripping adds none to a name,
      so the events scraped from single-line names make a body with one
      line per event. */
  lemma {:induction false} ScrapedEventsSingleLine(items: seq<RawItem>)
    requires forall i :: 0 <= i < |items| ==> '\n' !in items[i].name
    ensures SingleLine(ScrapedEvents(items))
  {
    var events, idx := ScrapedEvents(items), KeptIndices(items);
    ScrapedEventsTrace(items);
    DerivedEventsWellFormed(items);
    forall k | 0 <= k < |events|
      ensures '\n' !in events[k].name && '\n' !in events[k].status
    {
      assert events[k] in events;
      assert Outcomes(items)[idx[k]] == StatusOf(items[idx[k]]);
      StatusOfCases(items[idx[k]]);
      StripKeepsOut(items[idx[k]].name, '\n');
    }
  }
}
